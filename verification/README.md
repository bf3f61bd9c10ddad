# DesqDfs in Dafny

A model of the one-pass mining core of DESQ's `DesqDfs` miner
(`src/main/java/de/uni_mannheim/desq/mining/DesqDfs.java`), with proofs about it.

DESQ mines frequent subsequences. A pattern expression is compiled into a finite-state transducer (FST). An FST
reads an input sequence of item ids (fids) and emits output sequences. The support of a pattern is the summed
weight of the input sequences that can emit it. The miner reports every pattern whose support is at least sigma.
Items are numbered by decreasing frequency, so an item is frequent when its fid is at most `largestFrequentFid`.

The distributed variant splits the work by pivot item: the largest item of an output sequence. Each input sequence
goes to the partition of every pivot it can produce. Each partition then mines only the patterns with its own pivot.

What the model covers:

* **Pivot search.** Two one-pass searches find the pivots of one sequence. The first carries a running maximum
  (`piStepOnePass`). The second carries a sorted heap of candidate pivots for compressed transitions
  (`piStepOnePassCompressed`), with its union rule.
* **Path search.** `findPathsAndPivotsStepOnePassCompressed` records the path of (transition number, input item)
  pairs behind each output, for each pivot.
* **Two path representations.**
  * The concatenated representation: its offset layout, and how the reader walks it.
  * The tree representation: the output NFA (`OutputNFA`, `PathState`); adding paths; suffix merging (`attemptMerge`,
    `mergeSuffixes`); the serialisation `write`; and how the reader steps through it.
* **The traditional search.**
  * `incStepOnePassTraditional`, and the posting-list bookkeeping of a search-tree node it drives.
  * `expandTraditional`, which grows, prunes and expands nodes.
  * `mineTraditional`, which ties them together.
* **The front end.**
  * `addInputSequence`, with its relevance filter.
  * `createPartitions`, which routes each sequence's payload to its pivots' partitions in every representation.

The reference semantics is `Transducer.Outputs(fst, lff, input, pos, state)`. It is the set of output sequences of the
accepting runs from `(pos, state)` whose items are all at most `lff`. Every search is proved against it:

* the pivot searches compute exactly the pivots of these outputs;
* the path search records paths for exactly those pivots;
* a step of the traditional search splits this set into its first item and the rest;
* the traditional search writes exactly the frequent patterns that pass the pivot filter, each with its true support.

The transducer is a datatype with function fields. The FST, the dictionary and the relevance automaton (EDFA) are
parameters, not models:

* `Fst.compressed(state, item)` gives the compressed transitions: number, kind, target and output label.
* `Fst.ascendants(item)` gives the generalisation hierarchy.
* The uncompressed `State.consume` is *defined* by flattening the compressed transitions, so the two agree by
  construction.

Java's object graph of path states becomes an arena: `map<nat, PathState>` keyed by state id. Its hash maps become
association lists, with `Put`, `SetIn` and `Lookup` playing `put` and `get`. The priority queue of candidate pivots
becomes an ascending sequence. The positions the writer records for merged states become a map from state id to
position.

## Model

| member | source | states |
|---|---|---|
| Pivots.Pivot | src/main/java/de/uni_mannheim/desq/mining/DesqDfs.java:2008-2014 | The pivot is never negative and bounds every item. It is 0 for an empty sequence. Otherwise it is 0 or one of the items. |
| Pivots.PivotConcat | src/main/java/de/uni_mannheim/desq/mining/DesqDfs.java:2008-2014 | The pivot of a concatenation is the larger of the two parts' pivots. This is why a running maximum along a run yields the pivot of the whole output. |
| Pivots.PivotPartitionUnique | src/main/java/de/uni_mannheim/desq/mining/DesqDfs.java:1979-1981 | Take a non-empty pattern of positive items and a pivot item p > 0. The pattern passes the output filter of partition p exactly when p is its pivot. It always passes in the partition of its own pivot. So each pattern is written by exactly one partition. |
| PivotHeap.DropBelow | src/main/java/de/uni_mannheim/desq/mining/DesqDfs.java:1035-1039 | Dequeuing while the head is below `a` leaves a sorted suffix of the heap. Every element removed is below `a`, and every element kept is at least `a`. |
| PivotHeap.DropBelowMembers | src/main/java/de/uni_mannheim/desq/mining/DesqDfs.java:1035-1039 | An element survives the dequeue loop exactly when it was in the heap and is at least `a`. |
| PivotHeap.EnqueueAll | src/main/java/de/uni_mannheim/desq/mining/DesqDfs.java:1061-1063 | Enqueueing a list keeps the heap sorted. Its elements are the old ones together with the new ones. |
| PivotHeap.Between | src/main/java/de/uni_mannheim/desq/mining/DesqDfs.java:1072 | `headSet(hi + 1).tailSet(lo)` keeps exactly the elements within `[lo, hi]`. |
| PivotHeap.UnionItem | src/main/java/de/uni_mannheim/desq/mining/DesqDfs.java:1030-1046 | A CONSTANT or SELF output `a` turns a null heap into `[a]`. A heap with minimum `c0` becomes the old candidates that are at least `a`, plus `a` itself when `a >= c0`. The result is sorted, non-empty (the assert at 1046), and free of duplicates if the old heap was. |
| PivotHeap.UnionAscendants | src/main/java/de/uni_mannheim/desq/mining/DesqDfs.java:1056-1076 | A SELF_GENERALIZE output turns a null heap into the frequent ascendants. Otherwise the heap becomes the old candidates that are at least the smallest ascendant, plus the frequent ascendants that are at least the old minimum. The result is sorted and non-empty. |
| PivotHeap.UnionRule | src/main/java/de/uni_mannheim/desq/mining/DesqDfs.java:961-965 | The documented rule `current[>=min(add)] ∪ add[>=min(current)]` equals `{max(c, a) | c in current, a in add}`. |
| PivotHeap.UnionItemMeaning | src/main/java/de/uni_mannheim/desq/mining/DesqDfs.java:1030-1046 | After a CONSTANT or SELF step the heap holds exactly `max(c, a)` for every earlier candidate `c`. These are the pivots of every output extended by `a`. |
| PivotHeap.UnionAscendantsMeaning | src/main/java/de/uni_mannheim/desq/mining/DesqDfs.java:1056-1076 | After a SELF_GENERALIZE step the heap holds exactly `max(c, g)` for every candidate `c` and every frequent ascendant `g`. |
| PivotSearch.PiStepOnePassCorrect | src/main/java/de/uni_mannheim/desq/mining/DesqDfs.java:1281-1361 | Start the uncompressed one-pass search from any configuration with running pivot `p`. It records exactly the values `max(p, pivot(w)) != 0`, where `w` ranges over the outputs of the accepting runs from that configuration. |
| PivotSearch.PiStepCompressedCorrect | src/main/java/de/uni_mannheim/desq/mining/DesqDfs.java:971-1081 | Start the compressed search from any heap. It records exactly the values `max(c, pivot(w)) != 0`, where `c` is a candidate of the heap (0 for the null heap) and `w` an output from that configuration. |
| PivotSearch.SearchesAgree | src/main/java/de/uni_mannheim/desq/mining/DesqDfs.java:360-370 | Both searches start as `getPivotItemsOfOneSequence` starts them: pivot 0 or null heap, position 0, initial state. Both then find the same set: the pivots of the sequence's outputs. |
| PivotSearch.SequencePivotsMeaning | src/main/java/de/uni_mannheim/desq/mining/DesqDfs.java:337-373 | `p` is a pivot of a sequence exactly when `p != 0` and some output of the sequence has pivot `p`. |
| Transducer.OutputsFrequent | src/main/java/de/uni_mannheim/desq/mining/DesqDfs.java:1332 | Every item of every output of the reference semantics is frequent (at most `lff`). |
| PivotSearch.PivotsFrequent | src/main/java/de/uni_mannheim/desq/mining/DesqDfs.java:1332-1349 | Every pivot recorded for a sequence is a frequent item: `0 < p <= largestFrequentFid`. Only frequent outputs extend the running pivot. |
| PivotSearch.FinalPivots | src/main/java/de/uni_mannheim/desq/mining/DesqDfs.java:974-979 | The corrected final check. It records pivots only at an accepting configuration with a live heap, and there it records exactly the heap's elements. |
| PivotSearch.FinalCheckAsWritten | src/main/java/de/uni_mannheim/desq/mining/DesqDfs.java:974-979 | The check as written dereferences the heap. It fails exactly when the state is final and the heap is still null. Otherwise it records what `FinalPivots` records. |
| PivotSearch.FinalCheckNullHeapExample | src/main/java/de/uni_mannheim/desq/mining/DesqDfs.java:974 | Take a transducer whose initial state is final and the input `[7]`. The check as written fails on the null heap at the first call. The sequence's only output is the empty one, and the corrected search finds no pivot. |
| FindPaths.Distinct | src/main/java/de/uni_mannheim/desq/mining/DesqDfs.java:817-823 | Each pivot of the heap is recorded once, even if the heap holds it twice. |
| FindPaths.FinalHits | src/main/java/de/uni_mannheim/desq/mining/DesqDfs.java:815-845 | The corrected final check of the path search. It records only at an accepting configuration with a live heap and a non-empty path. There it records the current path once for each distinct pivot of the heap. |
| FindPaths.FinalHitsAsWritten | src/main/java/de/uni_mannheim/desq/mining/DesqDfs.java:815 | The check as written fails exactly when the state is final and the heap is still null. Otherwise it records what `FinalHits` records. |
| FindPaths.FinalHitsNullHeapExample | src/main/java/de/uni_mannheim/desq/mining/DesqDfs.java:815 | Take a transducer whose initial state is final and the input `[7]`. The check as written fails at the first call, and the corrected search records no path. |
| FindPaths.PathsFor | src/main/java/de/uni_mannheim/desq/mining/DesqDfs.java:825-831 | The path list of a pivot holds exactly the paths recorded for that pivot. |
| FindPaths.FindPathsPivots | src/main/java/de/uni_mannheim/desq/mining/DesqDfs.java:812-959 | From any configuration whose heap is null exactly when its path is empty, the path search records a path for exactly the pivots the compressed pivot search finds. |
| FindPaths.FindPathsShape | src/main/java/de/uni_mannheim/desq/mining/DesqDfs.java:812-959 | Every recorded path is non-empty. It extends the current path by whole (transition, item) pairs, at most one pair per remaining input item. |
| FindPaths.FindPathsRoutesToPivots | src/main/java/de/uni_mannheim/desq/mining/DesqDfs.java:384-391 | Started as the encoder starts it, the path search records paths for exactly the sequence's pivots. Every path has even length, is non-empty and is at most twice the input's length. |
| FindPaths.RunsOutputs | src/main/java/de/uni_mannheim/desq/mining/DesqDfs.java:876-957 | The runs behind the paths produce exactly the transducer's frequent outputs. A CONSTANT transition puts its constant on the path, SELF and SELF_GENERALIZE put the input item, and an epsilon transition puts nothing. |
| FindPaths.FindPathsRunsStep | src/main/java/de/uni_mannheim/desq/mining/DesqDfs.java:812-959 | From any heap and current path, the search records the current path extended by the path of each run from the configuration. Each such path goes to the larger of each heap candidate and the run's pivot, and nothing else is recorded. |
| FindPaths.FindPathsRuns | src/main/java/de/uni_mannheim/desq/mining/DesqDfs.java:812-959 | Started as the encoder starts it, a path goes to the partition of pivot `p` exactly when it is the non-empty (transition number, item) sequence of an accepting run whose frequent output has pivot `p`. |
| Concat.Encode | src/main/java/de/uni_mannheim/desq/mining/DesqDfs.java:401-419 | The send list is one count, then one offset per path, then the paths. |
| Concat.EncodePaths | src/main/java/de/uni_mannheim/desq/mining/DesqDfs.java:401-419 | The loop reserves the offsets first and fills each one in when its path is appended. It produces the layout of `Encode`. |
| Concat.EncodeOffs | src/main/java/de/uni_mannheim/desq/mining/DesqDfs.java:401-419 | The count is the number of paths. Offset `i` is `1 + N` plus the lengths of the earlier paths. The data after the offsets is the paths concatenated. |
| Concat.Decode | src/main/java/de/uni_mannheim/desq/mining/DesqDfs.java:1564-1577 | A list decodes exactly when its offsets start right after themselves, never decrease and stay within the list. Path `i` is then the slice from its offset to the next offset, or to the end of the list. |
| Concat.DecodeEncode | src/main/java/de/uni_mannheim/desq/mining/DesqDfs.java:401-419 | Decoding an encoded list gives back the paths in their order. |
| Concat.EncodeDecode | src/main/java/de/uni_mannheim/desq/mining/DesqDfs.java:401-419 | Any list that decodes is the encoding of what it decodes to, so the layout is unique. |
| Concat.EncodeOk | src/main/java/de/uni_mannheim/desq/mining/DesqDfs.java:1564-1623 | The encoding of non-empty, even-length paths satisfies everything the reader relies on. |
| Concat.PathStepReached | src/main/java/de/uni_mannheim/desq/mining/DesqDfs.java:1566-1610 | Reading a path from pair `k` on reports a final state without output exactly when every remaining pair is an epsilon transition. |
| Concat.ReadsSegment | src/main/java/de/uni_mannheim/desq/mining/DesqDfs.java:1564-1623 | Take a path stored in the list and ending at the next path's offset or at the list's end. Reading pair `k` of it in the list gives the same result as reading pair `k` of the path alone. |
| Concat.ReadsPath | src/main/java/de/uni_mannheim/desq/mining/DesqDfs.java:1564-1623 | Reading the encoded list at pair `k > 0` of path `i` gives the same result as reading that path alone. The offset scan at 1572-1577 stops the reader exactly at the next path. |
| Concat.StartsCorrect | src/main/java/de/uni_mannheim/desq/mining/DesqDfs.java:1590-1600 | From path `i` on, the loop at position 0 reads the first pair of every later path, in order. |
| Concat.FirstPair | src/main/java/de/uni_mannheim/desq/mining/DesqDfs.java:1596-1620 | The first pair of path `i`, read at its offset, gives the same result as reading the path alone. |
| Concat.ReadsAllStarts | src/main/java/de/uni_mannheim/desq/mining/DesqDfs.java:1590-1600 | At position 0 the reader reads the first pair of every path, in order. |
| IncSteps.Join | src/main/java/de/uni_mannheim/desq/mining/DesqDfs.java:1827 | Two steps together reach a final state if either does, and have the moves of both. |
| TraditionalStep.StepWithinPartition | src/main/java/de/uni_mannheim/desq/mining/DesqDfs.java:1828 | Inside a partition (`0 < pivotItem <= largestFrequentFid`) the one-pass step filters children by `pivotItem >= o` alone. It accounts for exactly the frequent outputs whose pivot is at most the pivot item, and every child it expands also passes the two-pass filter of line 1884. |
| TraditionalStep.StepWithoutPartition | src/main/java/de/uni_mannheim/desq/mining/DesqDfs.java:1828 | With pivot item 0 the one-pass filter has no exemption. The step accounts only for the empty output, so none of its moves continues to any non-empty frequent output. |
| Transducer.OutputsBelow | src/main/java/de/uni_mannheim/desq/mining/DesqDfs.java:1828 | Running the transducer with the pivot item as frequency bound yields exactly the outputs under `largestFrequentFid` whose pivot is at most the pivot item. |
| IncSteps.AdmittedMoves | src/main/java/de/uni_mannheim/desq/mining/DesqDfs.java:1613-1619 | The moves of one pair are one move per output item the filter admits, all continuing at the same state and position. |
| TraditionalStep.StepTraditional | src/main/java/de/uni_mannheim/desq/mining/DesqDfs.java:1797-1835 | Every move advances the position, stays within the input, and carries a non-epsilon item the filter admits. At the end of the input there are no moves, and a final state is reported exactly when the state is final. |
| TraditionalStep.StepTraditionalCorrect | src/main/java/de/uni_mannheim/desq/mining/DesqDfs.java:1797-1835 | The step accounts for the reference outputs: it reports a final state exactly when the empty output is among them. `o · w` is an output exactly when some move for `o` continues where `w` can be output. |
| SearchTree.IndexOf | src/main/java/de/uni_mannheim/desq/mining/DesqDfs.java:1830-1831 | It finds the child for an item exactly when one exists. |
| SearchTree.ExpandWithItem | src/main/java/de/uni_mannheim/desq/mining/DesqDfs.java:1830-1831 | Afterwards the node has a child for the item. A new child is appended only if none existed. The children of other items are untouched. |
| SearchTree.AddMoves | src/main/java/de/uni_mannheim/desq/mining/DesqDfs.java:1819-1833 | After one input's moves, each child for a moved item has one more posting for that input. The posting's snapshot set is the moves for the item, and the input's weight is added once. Other children are unchanged, and new items get new children. |
| Expansion.StepAll | src/main/java/de/uni_mannheim/desq/mining/DesqDfs.java:1938-1943 | The step over all snapshots of a posting yields only moves that advance past some snapshot and pass the filter. |
| Expansion.StepAllCorrect | src/main/java/de/uni_mannheim/desq/mining/DesqDfs.java:1938-1943 | The step over all snapshots of a posting accounts for the union of the outputs from those snapshots. |
| Expansion.ReachedMatches | src/main/java/de/uni_mannheim/desq/mining/DesqDfs.java:1938-1948 | Take snapshots that stand for `prefix`. Stepping from them reaches a final state exactly when the input can output `prefix`, so the support counted at 1946-1947 is the true support. |
| Expansion.ChildRepresents | src/main/java/de/uni_mannheim/desq/mining/DesqDfs.java:1938-1943 | The snapshots of the moves for `o` stand for `prefix + [o]`. The outputs from them are exactly the rests of the input's outputs that start with `prefix + [o]`. |
| Expansion.Grow | src/main/java/de/uni_mannheim/desq/mining/DesqDfs.java:1932-1951 | Growing a node computes the prefix's support in the database. The node's children then stand for their prefixes, and no item some output continues with is missing. |
| Expansion.Prune | src/main/java/de/uni_mannheim/desq/mining/DesqDfs.java:1993 | Pruning keeps exactly the children whose prefix support reaches sigma. The kept children are a subsequence of the children, so their order is kept, and children with distinct items stay distinct. |
| Expansion.SupportBelowPrefix | src/main/java/de/uni_mannheim/desq/mining/DesqDfs.java:1993 | A child's prefix support bounds the support of every pattern through it (anti-monotonicity). |
| Expansion.PruneComplete | src/main/java/de/uni_mannheim/desq/mining/DesqDfs.java:1781 | After pruning, every item that begins a pattern with support at least sigma still has a child. |
| Expansion.MaxLen | src/main/java/de/uni_mannheim/desq/mining/DesqDfs.java:1905-2001 | No input is longer than this bound, so the expansion depth is finite. |
| Expansion.ChildDepth | src/main/java/de/uni_mannheim/desq/mining/DesqDfs.java:1995 | A node with a child is shallower than the longest input, so the recursion terminates. |
| Expansion.Expand | src/main/java/de/uni_mannheim/desq/mining/DesqDfs.java:1905-2001 | Sound: every written pattern extends the prefix, carries its true support, reaches sigma and passes the pivot filter. Complete: every such pattern that occurs is written. No pattern is written twice. The prefix is restored at the end (2000). |
| Expansion.RootPostings | src/main/java/de/uni_mannheim/desq/mining/DesqDfs.java:1747-1751 | The root's database has one snapshot per input: the initial state at position 0. |
| Expansion.MineTraditional | src/main/java/de/uni_mannheim/desq/mining/DesqDfs.java:1732-1784 | Nothing is written when the total weight is below sigma. Otherwise the written patterns are exactly the patterns with support at least sigma that pass the pivot filter, each with its true support. No pattern is written twice. |
| OutputNfa.Empty | src/main/java/de/uni_mannheim/desq/mining/DesqDfs.java:445-447 | A fresh NFA is a tree with correct leaf and backward lists, and it accepts nothing. |
| OutputNfa.Lookup | src/main/java/de/uni_mannheim/desq/mining/DesqDfs.java:577-579 | It finds a target exactly when the label has an arc, and the arc found is one of the state's arcs. |
| OutputNfa.Follow | src/main/java/de/uni_mannheim/desq/mining/DesqDfs.java:574-599 | An existing label leaves the NFA unchanged and returns its target. Otherwise one fresh, non-final state is added behind a new arc, and the leaf list is updated. |
| OutputNfa.FollowAccepts | src/main/java/de/uni_mannheim/desq/mining/DesqDfs.java:574-599 | Following a label never changes the accepted language. |
| OutputNfa.FollowBookkeeping | src/main/java/de/uni_mannheim/desq/mining/DesqDfs.java:556-596 | Following keeps the leaf list equal to the arc-less non-root states. Each backward list names only states that have an arc with that label into its owner. |
| OutputNfa.AddedInListsExact | src/main/java/de/uni_mannheim/desq/mining/DesqDfs.java:556-564 | A state created by `followTransition` lists its creator under the label. The creator's new arc leads to the new state. Every older list stays exact, because appending an arc changes no existing target. |
| OutputNfa.UniqueAccess | src/main/java/de/uni_mannheim/desq/mining/DesqDfs.java:454-469 | In the tree built by `addPath`, each state is reached from the root by exactly one label sequence. |
| OutputNfa.SetFinal | src/main/java/de/uni_mannheim/desq/mining/DesqDfs.java:684-686 | Marking a state final keeps the states and every arc. |
| OutputNfa.AddPath | src/main/java/de/uni_mannheim/desq/mining/DesqDfs.java:454-469 | Afterwards the NFA accepts what it accepted before plus the label sequence of the path, and nothing else. Its shape is kept. |
| OutputNfa.BuildNfa | src/main/java/de/uni_mannheim/desq/mining/DesqDfs.java:781-783 | The NFA of a partition accepts exactly the label sequences of its paths. |
| SuffixMerge.Put | src/main/java/de/uni_mannheim/desq/mining/DesqDfs.java:644 | `outTransitions.put(l, t)` makes `l` lead to `t`, leaves every other label alone and adds `l` to the label set. |
| SuffixMerge.SameOutIsMapEquality | src/main/java/de/uni_mannheim/desq/mining/DesqDfs.java:622 | The guard's out-arc comparison holds exactly when every label leads to the same target in both states. |
| SuffixMerge.InList | src/main/java/de/uni_mannheim/desq/mining/DesqDfs.java:641 | `inTransitions.get(l)` finds a list only if an entry with label `l` is stored, and finds one whenever it is. |
| SuffixMerge.SetIn | src/main/java/de/uni_mannheim/desq/mining/DesqDfs.java:661 | `inTransitions.put(l, v)` stores `v` under `l` and leaves every other label's list alone. |
| SuffixMerge.Redirect | src/main/java/de/uni_mannheim/desq/mining/DesqDfs.java:644 | Only the predecessor's arc labelled `l` changes: it now leads to the kept state. |
| SuffixMerge.RedirectAll | src/main/java/de/uni_mannheim/desq/mining/DesqDfs.java:663-665 | Every adopted predecessor's arc labelled `l` now leads to the kept state. Every other state is unchanged. |
| SuffixMerge.SetInList | src/main/java/de/uni_mannheim/desq/mining/DesqDfs.java:656 | A backward-list update changes only that list of that state. |
| SuffixMerge.Detach | src/main/java/de/uni_mannheim/desq/mining/DesqDfs.java:670-672 | Removing the dropped state from its targets' backward lists changes no arc and no finality. |
| SuffixMerge.AttemptMerge | src/main/java/de/uni_mannheim/desq/mining/DesqDfs.java:611-681 | Merging a state into itself succeeds and changes nothing. When the guard fails the merge reports false and changes nothing. A merge succeeds only when the guard held. |
| SuffixMerge.TryCandidates | src/main/java/de/uni_mannheim/desq/mining/DesqDfs.java:648-653 | If no candidate merges, nothing changes. |
| SuffixMerge.AttemptMergeLang | src/main/java/de/uni_mannheim/desq/mining/DesqDfs.java:611-681 | A merge, with all its recursive merges, keeps these properties: the same states, finality, label sets and leaf list; backward lists that name only states with an arc under their label; no dangling arc. It also keeps two language facts, measured in the NFA before merging. Every arc leads to a state accepting the same label sequences as the state it led to before merging. Every backward-list entry names a state whose original arc under that label leads to a state with the owner's language. |
| SuffixMerge.MergingStart | src/main/java/de/uni_mannheim/desq/mining/DesqDfs.java:556-564 | A built NFA, whose backward lists name exactly the predecessors, satisfies the merge invariant. |
| SuffixMerge.MergeableLang | src/main/java/de/uni_mannheim/desq/mining/DesqDfs.java:622 | Two states that pass the merge guard accept the same label sequences from there on. |
| SuffixMerge.LangKept | src/main/java/de/uni_mannheim/desq/mining/DesqDfs.java:611-681 | Under the merge invariant, every state accepts from itself what it accepted before merging. |
| SuffixMerge.RedirectLang | src/main/java/de/uni_mannheim/desq/mining/DesqDfs.java:644 | Redirecting a predecessor's arc to a state with the language of its old target keeps the merge invariant. |
| SuffixMerge.SetInListLang | src/main/java/de/uni_mannheim/desq/mining/DesqDfs.java:656-661 | Storing a list of states whose original arcs lead to the owner's language keeps the merge invariant. |
| SuffixMerge.DetachLang | src/main/java/de/uni_mannheim/desq/mining/DesqDfs.java:670-672 | Removing the dropped state from its targets' backward lists keeps the merge invariant. |
| SuffixMerge.AcceptsRoot | src/main/java/de/uni_mannheim/desq/mining/DesqDfs.java:454-469 | The NFA accepts a label sequence exactly when the sequence, read from the front, leads from the root to a final state. |
| SuffixMerge.MergeSuffixes | src/main/java/de/uni_mannheim/desq/mining/DesqDfs.java:475-486 | Merging every leaf into the first keeps the states, their finality and label sets, the leaf list, sound backward lists and the arena. The merged NFA accepts exactly the label sequences the built NFA accepted. |
| SuffixMerge.LeafMergeable | src/main/java/de/uni_mannheim/desq/mining/DesqDfs.java:482-483 | Two leaves of a built NFA pass the merge guard after any sequence of merges. So `attemptMerge(leaf)` never fails its guard, which is what the `assert merged` expects. |
| NfaWrite.WriteState | src/main/java/de/uni_mannheim/desq/mining/DesqDfs.java:717-755 | Without merging, the state and its subtree are encoded at the old end of the list. With merging, the state is recorded there and every newly written state is laid out at its recorded position. What was written before is never disturbed. |
| NfaWrite.Write | src/main/java/de/uni_mannheim/desq/mining/DesqDfs.java:492-494 | Without merging, the list encodes the tree from position 0. With merging, every written state is laid out at its recorded position, with the root at 0. |
| NfaWrite.EncodesStable | src/main/java/de/uni_mannheim/desq/mining/DesqDfs.java:728-738 | An encoding reads nothing before its own position. Later slot writes and appends therefore keep it. |
| NfaWrite.HeaderRead | src/main/java/de/uni_mannheim/desq/mining/DesqDfs.java:1511-1518 | The reader gets back the number of arcs from the written header. It reports a final state exactly when the state was final or had no arcs. |
| NfaWrite.Continuations | src/main/java/de/uni_mannheim/desq/mining/DesqDfs.java:1527-1538 | The reader finds one continuation per announced arc. |
| NfaWrite.ReadArcsAgree | src/main/java/de/uni_mannheim/desq/mining/DesqDfs.java:1527-1546 | The reader's loop over the slots yields the moves of the arcs the slots point to, in slot order. |
| NfaWrite.StepTreeReadsState | src/main/java/de/uni_mannheim/desq/mining/DesqDfs.java:1510-1554 | Reading a state written without merging reports its finality (or that it has no arcs). It yields one move per admitted output of each arc, each continuing where the arc's target is encoded. |
| NfaWrite.StepTreeReadsMerged | src/main/java/de/uni_mannheim/desq/mining/DesqDfs.java:1510-1554 | With merging, each move continues at the position recorded for the arc's target. |
| Routing.AddToPartitions | src/main/java/de/uni_mannheim/desq/mining/DesqDfs.java:313-321 | Each pivot of the payload gets one more list at the end of its partition, created if new. Other partitions are unchanged. |
| Routing.HoldersMeaning | src/main/java/de/uni_mannheim/desq/mining/DesqDfs.java:301-321 | The reference routing lists each sequence holding the pivot exactly once, in input order. |
| Routing.RouteLists | src/main/java/de/uni_mannheim/desq/mining/DesqDfs.java:313-321 | One loop step keeps every partition's list equal to one accepted payload per holder, in order. |
| Partitions.AddInputSequence | src/main/java/de/uni_mannheim/desq/mining/DesqDfs.java:259-264 | The database keeps what it had. The sequence is appended with its weight, unless three things hold: pruning is on, the transition switch is off and the EDFA calls it irrelevant. Then it is dropped. The tree switch plays no part: with it alone, an irrelevant sequence is dropped. |
| Partitions.Format | src/main/java/de/uni_mannheim/desq/mining/DesqDfs.java:303-306 | The two representation switches are separate flags. The tree switch selects the path NFA whether or not the transition switch is set. The transition switch alone selects concatenated paths. With neither, the sequences themselves are sent. |
| Partitions.DroppedHasNoOutputs | src/main/java/de/uni_mannheim/desq/mining/DesqDfs.java:259-264 | If relevance is sound, a dropped sequence has no outputs and no pivots. It therefore reaches no partition and supports no pattern. |
| Partitions.PlainPayload | src/main/java/de/uni_mannheim/desq/mining/DesqDfs.java:337-373 | The sequence itself goes to exactly its pivots. With pruning on, an irrelevant sequence goes nowhere. |
| Partitions.ConcatPayload | src/main/java/de/uni_mannheim/desq/mining/DesqDfs.java:384-431 | Each pivot of the sequence gets one send list, which decodes to exactly the paths recorded for that pivot. |
| Partitions.EncodeOne | src/main/java/de/uni_mannheim/desq/mining/DesqDfs.java:401-419 | A pivot's send list decodes to that pivot's paths. |
| Partitions.TreePayload | src/main/java/de/uni_mannheim/desq/mining/DesqDfs.java:781-795 | The list written for a partition serialises an NFA that accepts exactly the label sequences of the partition's paths. With merging, it is a suffix-merged variant of that NFA with the same accepted label sequences. |
| Partitions.TreePayloads | src/main/java/de/uni_mannheim/desq/mining/DesqDfs.java:766-799 | Each pivot of the sequence gets one serialised path NFA for that pivot's paths. |
| Partitions.SequencePayload | src/main/java/de/uni_mannheim/desq/mining/DesqDfs.java:303-308 | In each representation, a sequence sends one correct payload to exactly its pivots. |
| Partitions.CreatePartitions | src/main/java/de/uni_mannheim/desq/mining/DesqDfs.java:292-325 | The partition keys are the pivots of all sequences. The list of pivot `p` holds one correct payload per sequence with pivot `p`, in input order. |
| Partitions.PartitionsAreRelevant | src/main/java/de/uni_mannheim/desq/mining/DesqDfs.java:292-325 | Every partition is non-empty and its pivot is not 0. Every sequence in it has an output whose pivot is the partition's pivot. |

## Left out

- Two-pass mining is left out: the reverse FST and EDFA state sequences, `incStepTwoPass*` and the two-pass part of
  `expandTraditional`. Only its child filter (line 1884) appears, to compare it with the one-pass filter
  (`TraditionalStep.StepWithinPartition`).
- `useMaxPivot` and `skipNonPivotTransitions` are not modelled. These optional pruning paths of the pivot searches
  only reduce work; the model follows the plain branches.
- `piStepOnePassV1` / `useFirstPCVersion` and the commented-out blocks are not modelled, because they are not
  reachable in the configurations modelled.
- `mine()` and `expand()` over the transition representations are not modelled. These are the search-tree drivers
  of a partition that receives paths, and their node bookkeeping mirrors `expandTraditional`. Their reader steps
  are modelled: `Concat.IncStepConcat`, `NfaWrite.StepTree` and the dispatch at 1494-1499. The `minePivot`
  dispatch is not modelled either.
- The `determinePivotElementsForSequences` debugging entry point is not modelled.
- Object pooling, counters, `exportGraphViz`, logging and the `pathStates` diagnostic list are not modelled.
  They are bookkeeping with no effect on results.
- Java's `int` and `long` arithmetic is not modelled. Integers are unbounded; supports and offsets are assumed not
  to overflow.
- The `patternWriter == null` check is not modelled. Patterns are returned, not written.
- The EDFA relevance test is a function parameter. Its contract (`Partitions.RelevanceSound`: an irrelevant
  sequence has no output) is an assumption of `Partitions.DroppedHasNoOutputs`, not a proof.
- The constructor, the configuration parsing and the dictionary are parameters of the model.
- The FST, its compressed transitions and the item hierarchy are parameters (`Transducer.Fst`). The uncompressed
  `consume` is defined from them, not modelled separately.
- `addIncomingTransitionOrGetExistingOnes` (698-709) is not modelled. No modelled code calls it.
- SuffixMerge.MergeSuffixes: the recursion of `attemptMerge` is bounded by a fuel of `next + 1`, because the Java
  recursion has no explicit measure. When the fuel runs out, a merge is reported as failed.
- SuffixMerge.AttemptMerge: the adopt branch (661) makes `keep` share `drop`'s predecessor list object. The model
  copies the list instead. After the merge nothing reads `drop`'s lists again, so the sharing is not observable
  in the modelled results.
- NfaWrite.StepTreeReadsState: requires a buffer produced by `Write`. The reader is not modelled on arbitrary
  lists, and `Readable` gives its bounds.
- SearchTree.AddMoves: `DesqDfsTreeNode` and its `PostingList` are given a narrow contract. Per input there is
  one posting whose snapshot set equals the moves for the item. The byte-level posting encoding is not modelled.
- Java walks the `outTransitions` and `inTransitions` hash maps of a path state in hash order (505-512, 636, 670,
  734). The model keeps them as association lists in insertion order. So the order of arc slots written by
  `NfaWrite.WriteState`, and the order in which `SuffixMerge.MergeEntries` and `SuffixMerge.TryCandidates` try
  merge partners, can differ from Java's. The accepted label sequences are the same.
- `expandTraditional` walks a node's children in the order of the `childrenByFid` hash map (1914). The model keeps
  the children in the order their items first appear. So the order in which `Expansion.Expand` writes patterns
  can differ from Java's. The set of written patterns, each written once, is the same.
- `DesqDfsScored.java` and `FstExample.java` are not part of this model. They are a scored variant and an I/O
  example outside the core.

## Findings

| source | as written | input that shows it | evidently intended | confidence | as-written member | corrected member |
|---|---|---|---|---|---|---|
| src/main/java/de/uni_mannheim/desq/mining/DesqDfs.java:974 | The final check calls `currentPivotItems.size()` while the heap may still be `null`, because nothing has been output yet. | A transducer whose initial state is final, with any input (`[7]`): the first call has a null heap at a final state. | Record nothing when the heap is null: no output, no pivot. | medium; not executed | PivotSearch.FinalCheckAsWritten, PivotSearch.FinalCheckNullHeapExample | PivotSearch.FinalPivots |
| src/main/java/de/uni_mannheim/desq/mining/DesqDfs.java:815 | The path search's final check calls `currentPivotItems.size()` on the same possibly-null heap. | A transducer whose initial state is final, with any input (`[7]`). | Record no path when the heap is null. | medium; not executed | FindPaths.FinalHitsAsWritten, FindPaths.FinalHitsNullHeapExample | FindPaths.FinalHits |
