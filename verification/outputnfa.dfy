/**
 The output NFA of the tree representation: the paths (transition number,
 input item pairs) of one input sequence towards one partition, stored as a
 prefix tree whose states are kept in an arena (a map from state id to
 state). A state has forward arcs keyed by their label; when suffixes are
 merged it also keeps backward lists (which states reach it under which
 label), and the NFA keeps the list of its leaf states.
 */
module OutputNfa {
  import opened Basics

  /** The key of an arc: the number of the transducer transition and the input item it read. */
  datatype Label = Label(trId: int, item: int)

  datatype Arc = Arc(key: Label, target: nat)

  /** The states that reach a state under one label (one entry of inTransitions). */
  datatype InEntry = InEntry(key: Label, from: seq<nat>)

  datatype PathState = PathState(isFinal: bool, out: seq<Arc>, incoming: seq<InEntry>)

  /**
   The NFA: its states by id, the next free id (numPathStates), the leaf list
   and whether suffixes are merged (the miner's mergeSuffixes switch).
   */
  datatype Nfa = Nfa(states: map<nat, PathState>, next: nat, leafs: seq<nat>, merge: bool)

  const Root: nat := 0

  /** A fresh NFA: only the root, which is neither final nor a leaf. */
  function Empty(merge: bool): (r: Nfa)
    ensures Tree(r) && LeafsExact(r) && InListsOk(r) && InListsExact(r)
    ensures forall w :: !Accepts(r, w)
  {
    var r := Nfa(map[Root := PathState(false, [], [])], 1, [], merge);
    assert forall w :: Reach(r, Root, w).Some? ==> Reach(r, Root, w) == Some(Root) by {
      forall w | Reach(r, Root, w).Some? ensures Reach(r, Root, w) == Some(Root) {
        ReachInEmpty(r, w);
      }
    }
    r
  }

  lemma ReachInEmpty(r: Nfa, w: seq<Label>)
    requires r.states == map[Root := PathState(false, [], [])]
    requires Reach(r, Root, w).Some?
    ensures Reach(r, Root, w) == Some(Root) && |w| == 0
  {
  }

  // -- arcs ----------------------------------------------------------------------------------------------------------

  function OutLabels(out: seq<Arc>): set<Label>
  {
    set a | a in out :: a.key
  }

  predicate UniqueLabels(out: seq<Arc>)
  {
    forall i, j | 0 <= i < j < |out| :: out[i].key != out[j].key
  }

  /** The target of the arc with label `l` (outTransitions.get). */
  function Lookup(out: seq<Arc>, l: Label): (r: Option<nat>)
    ensures r.Some? <==> l in OutLabels(out)
    ensures r.Some? ==> Arc(l, r.value) in out
  {
    if |out| == 0 then None
    else if out[0].key == l then Some(out[0].target)
    else
      assert out == [out[0]] + out[1..];
      Lookup(out[1..], l)
  }

  lemma {:induction false} LookupAppend(a: seq<Arc>, b: seq<Arc>, l: Label)
    ensures Lookup(a + b, l) == if Lookup(a, l).Some? then Lookup(a, l) else Lookup(b, l)
  {
    if |a| > 0 {
      assert (a + b)[1..] == a[1..] + b;
      LookupAppend(a[1..], b, l);
    } else {
      assert a + b == b;
    }
  }

  /** With unique labels, the arc carrying a label is the one Lookup finds. */
  lemma {:induction false} LookupUnique(out: seq<Arc>, i: nat)
    requires UniqueLabels(out) && i < |out|
    ensures Lookup(out, out[i].key) == Some(out[i].target)
  {
    if i > 0 {
      LookupUnique(out[1..], i - 1);
    }
  }

  /** The index of the arc Lookup finds. */
  lemma {:induction false} LookupIndex(out: seq<Arc>, l: Label) returns (i: nat)
    requires Lookup(out, l).Some?
    ensures i < |out| && out[i] == Arc(l, Lookup(out, l).value)
  {
    if out[0].key == l {
      i := 0;
    } else {
      var j := LookupIndex(out[1..], l);
      i := j + 1;
    }
  }

  predicate NoDup(xs: seq<nat>)
  {
    forall i, j | 0 <= i < j < |xs| :: xs[i] != xs[j]
  }

  /** ObjectList.remove(Object): drops the first occurrence, if any. */
  function RemoveFirst(xs: seq<nat>, x: nat): seq<nat>
  {
    if |xs| == 0 then []
    else if xs[0] == x then xs[1..]
    else [xs[0]] + RemoveFirst(xs[1..], x)
  }

  lemma {:induction false} RemoveFirstFacts(xs: seq<nat>, x: nat)
    ensures x !in xs ==> RemoveFirst(xs, x) == xs
    ensures forall y :: y in RemoveFirst(xs, x) ==> y in xs
    ensures forall y :: y in xs && y != x ==> y in RemoveFirst(xs, x)
    ensures NoDup(xs) ==> NoDup(RemoveFirst(xs, x)) && x !in RemoveFirst(xs, x)
  {
    if |xs| > 0 {
      assert xs == [xs[0]] + xs[1..];
      if xs[0] != x {
        RemoveFirstFacts(xs[1..], x);
        NoDupCons(xs, RemoveFirst(xs[1..], x));
      }
    }
  }

  lemma NoDupCons(xs: seq<nat>, r: seq<nat>)
    requires |xs| > 0 && forall y :: y in r ==> y in xs[1..]
    requires NoDup(xs[1..]) ==> NoDup(r)
    ensures NoDup(xs) ==> NoDup([xs[0]] + r)
  {
    if NoDup(xs) {
      assert NoDup(xs[1..]);
      assert xs[0] !in xs[1..];
      assert xs[0] !in r;
      var r' := [xs[0]] + r;
      forall i, j | 0 <= i < j < |r'| ensures r'[i] != r'[j] {
        if i == 0 {
          assert r'[j] in r;
        }
      }
    }
  }

  // -- building ------------------------------------------------------------------------------------------------------

  /**
   The arena is well formed: the root exists, every id is below the next free
   id and every arc leads to an existing state (Java references are never
   dangling).
   */
  predicate ArenaOk(nfa: Nfa)
  {
    && Root in nfa.states
    && (forall s | s in nfa.states :: s < nfa.next && TargetsIn(nfa.states[s].out, nfa.states.Keys))
  }

  predicate TargetsIn(out: seq<Arc>, keys: set<nat>)
  {
    forall a | a in out :: a.target in keys
  }

  predicate TargetsAbove(out: seq<Arc>, s: nat)
  {
    forall a | a in out :: s < a.target
  }

  /**
   followTransition: an existing arc with this label is followed; otherwise a
   fresh state is created behind a new arc. With merging, the fresh state
   records `s` as its predecessor under the label and becomes a leaf; `s`
   stops being a leaf when the arc is its first one.
   */
  method Follow(nfa: Nfa, s: nat, l: Label) returns (n: Nfa, t: nat)
    requires ArenaOk(nfa) && s in nfa.states
    ensures Followed(nfa, s, l, n, t)
    ensures ArenaOk(n) && t in n.states && n.merge == nfa.merge && Lookup(n.states[s].out, l) == Some(t)
  {
    var out := nfa.states[s].out;
    match Lookup(out, l)
    case Some(u) =>
      n, t := nfa, u;
    case None =>
      t := nfa.next;
      var created := PathState(false, [], if nfa.merge then [InEntry(l, [s])] else []);
      var leafs := if nfa.merge then nfa.leafs + [t] else nfa.leafs;
      var src := nfa.states[s].(out := out + [Arc(l, t)]);
      var leafs' := if |src.out| == 1 then RemoveFirst(leafs, s) else leafs;
      n := Nfa(nfa.states[s := src][t := created], t + 1, leafs', nfa.merge);
      AddedArena(nfa, n, s, l, t);
  }

  /** Follow either finds the arc, changing nothing, or adds a fresh state behind a new arc. */
  predicate Followed(m: Nfa, s: nat, l: Label, n: Nfa, t: nat)
    requires s in m.states
  {
    match Lookup(m.states[s].out, l)
    case Some(u) => n == m && t == u
    case None => Added(m, n, s, l, t)
  }

  lemma AddedArena(m: Nfa, n: Nfa, s: nat, l: Label, t: nat)
    requires ArenaOk(m) && Added(m, n, s, l, t)
    ensures ArenaOk(n) && t in n.states && Lookup(n.states[s].out, l) == Some(t)
  {
    var out := m.states[s].out;
    LookupAppend(out, [Arc(l, t)], l);
    forall x, a | x in n.states && a in n.states[x].out ensures a.target in n.states {
      if x == s && a !in out {
        assert a == Arc(l, t);
      }
    }
  }

  /**
   What a Follow that creates a state does to the arena: `t` is new and has
   no arc, `s` gets the arc (l, t) appended, every other state is unchanged.
   */
  predicate Added(m: Nfa, n: Nfa, s: nat, l: Label, t: nat)
  {
    && s in m.states && t !in m.states && s != t
    && Lookup(m.states[s].out, l).None?
    && n.states.Keys == m.states.Keys + {t}
    && n.merge == m.merge && n.next == t + 1 && m.next == t
    && n.states[t] == PathState(false, [], if m.merge then [InEntry(l, [s])] else [])
    && n.states[s] == m.states[s].(out := m.states[s].out + [Arc(l, t)])
    && (forall x | x in m.states && x != s :: n.states[x] == m.states[x])
    && n.leafs == (var leafs := if m.merge then m.leafs + [t] else m.leafs;
                   if |m.states[s].out| == 0 then RemoveFirst(leafs, s) else leafs)
  }

  /** The label of the k-th pair of a path. */
  function PairLabel(path: seq<int>, k: nat): Label
    requires 2 * k + 1 < |path|
  {
    Label(path[2 * k], path[2 * k + 1])
  }

  /** The label sequence of a path. */
  function Labels(path: seq<int>): (r: seq<Label>)
    ensures |r| == |path| / 2
    ensures forall k | 0 <= k < |r| :: r[k] == PairLabel(path, k)
  {
    seq(|path| / 2, k requires 0 <= k < |path| / 2 => PairLabel(path, k))
  }

  function SetFinal(nfa: Nfa, s: nat): (r: Nfa)
    requires s in nfa.states
    ensures r.states.Keys == nfa.states.Keys && r.states[s].isFinal
    ensures forall x | x in r.states :: r.states[x].out == nfa.states[x].out
  {
    nfa.(states := nfa.states[s := nfa.states[s].(isFinal := true)])
  }

  predicate EvenPaths(paths: seq<seq<int>>)
  {
    forall i | 0 <= i < |paths| :: |paths[i]| % 2 == 0
  }

  // -- language ------------------------------------------------------------------------------------------------------

  /** The state reached from `s` by reading the labels `w`, if every arc exists. */
  function Reach(nfa: Nfa, s: nat, w: seq<Label>): Option<nat>
  {
    if |w| == 0 then Some(s)
    else
      match Reach(nfa, s, w[..|w| - 1])
      case None => None
      case Some(u) => if u in nfa.states then Lookup(nfa.states[u].out, w[|w| - 1]) else None
  }

  /** The NFA accepts a label sequence when it leads from the root to a final state. */
  predicate Accepts(nfa: Nfa, w: seq<Label>)
  {
    var r := Reach(nfa, Root, w);
    r.Some? && r.value in nfa.states && nfa.states[r.value].isFinal
  }

  /**
   The shape a NFA has before any merge: the arena is well formed, arcs lead
   to states with larger ids, and labels are unique per state.
   */
  predicate Inv(nfa: Nfa)
  {
    && ArenaOk(nfa)
    && (forall s | s in nfa.states :: UniqueLabels(nfa.states[s].out) && TargetsAbove(nfa.states[s].out, s))
  }

  /** Before any merge the NFA is a tree: besides Inv, every state has at most one incoming arc. */
  predicate Tree(nfa: Nfa)
  {
    Inv(nfa) && SingleParent(nfa)
  }

  predicate SingleParent(nfa: Nfa)
  {
    forall s1, s2, i, j |
        s1 in nfa.states && s2 in nfa.states && 0 <= i < |nfa.states[s1].out| && 0 <= j < |nfa.states[s2].out|
        && nfa.states[s1].out[i].target == nfa.states[s2].out[j].target
      :: s1 == s2 && i == j
  }

  /**
   `n` extends `m`: every old state keeps its finality and its arcs (new arcs
   are appended and lead to new states), new states are not final and their
   arcs lead to new states.
   */
  predicate Grows(m: Nfa, n: Nfa)
  {
    && n.merge == m.merge
    && (forall x | x in m.states :: OldStateKept(m, n, x))
    && (forall z | z in n.states && z !in m.states :: NewStateFresh(m, n, z))
  }

  predicate OldStateKept(m: Nfa, n: Nfa, x: nat)
    requires x in m.states
  {
    && x in n.states
    && n.states[x].isFinal == m.states[x].isFinal
    && m.states[x].out <= n.states[x].out
    && forall i | |m.states[x].out| <= i < |n.states[x].out| :: n.states[x].out[i].target !in m.states
  }

  predicate NewStateFresh(m: Nfa, n: Nfa, z: nat)
    requires z in n.states
  {
    && !n.states[z].isFinal
    && forall a | a in n.states[z].out :: a.target !in m.states
  }

  /** Runs that exist survive growth. */
  lemma {:induction false} ReachKept(m: Nfa, n: Nfa, u: nat, w: seq<Label>)
    requires Grows(m, n) && u in m.states
    requires Reach(m, u, w).Some? && Reach(m, u, w).value in m.states
    ensures Reach(n, u, w) == Reach(m, u, w)
  {
    if |w| > 0 {
      var w' := w[..|w| - 1];
      var l := w[|w| - 1];
      var y := Reach(m, u, w').value;
      assert Reach(m, u, w') == Some(y) && y in m.states;
      ReachKept(m, n, u, w');
      var om, on := m.states[y].out, n.states[y].out;
      assert on == om + on[|om|..];
      LookupAppend(om, on[|om|..], l);
    }
  }

  /** A run of the grown NFA that starts and ends at old states is a run of the old one. */
  lemma {:induction false} ReachReflected(m: Nfa, n: Nfa, u: nat, w: seq<Label>)
    requires Grows(m, n) && u in m.states
    requires Reach(n, u, w).Some? && Reach(n, u, w).value in m.states
    ensures Reach(m, u, w) == Reach(n, u, w)
  {
    if |w| > 0 {
      var w' := w[..|w| - 1];
      var l := w[|w| - 1];
      var z := Reach(n, u, w').value;
      var y := Reach(n, u, w).value;
      assert Reach(n, u, w') == Some(z) && z in n.states;
      assert Lookup(n.states[z].out, l) == Some(y);
      assert Arc(l, y) in n.states[z].out;
      assert z in m.states;
      ReachReflected(m, n, u, w');
      var om, on := m.states[z].out, n.states[z].out;
      assert on == om + on[|om|..];
      LookupAppend(om, on[|om|..], l);
    }
  }

  /** Growth keeps the accepted language when the new states are not final. */
  lemma GrowsAccepts(m: Nfa, n: Nfa, w: seq<Label>)
    requires Grows(m, n) && Root in m.states
    requires Reach(m, Root, w).Some? ==> Reach(m, Root, w).value in m.states
    ensures Accepts(n, w) <==> Accepts(m, w)
  {
    if Accepts(m, w) {
      ReachKept(m, n, Root, w);
    }
    if Accepts(n, w) {
      ReachReflected(m, n, Root, w);
    }
  }

  /** Under Inv every run ends at an existing state, at a larger id unless it is empty. */
  lemma {:induction false} ReachClosed(nfa: Nfa, u: nat, w: seq<Label>)
    requires Inv(nfa) && u in nfa.states && Reach(nfa, u, w).Some?
    ensures Reach(nfa, u, w).value in nfa.states
    ensures |w| > 0 ==> Reach(nfa, u, w).value > u
  {
    if |w| > 0 {
      var w' := w[..|w| - 1];
      ReachClosed(nfa, u, w');
      var z := Reach(nfa, u, w').value;
      var y := Reach(nfa, u, w).value;
      assert Arc(w[|w| - 1], y) in nfa.states[z].out;
    }
  }

  /** The last step of a non-empty run: the state before it and the index of the arc taken. */
  lemma LastArc(nfa: Nfa, w: seq<Label>) returns (p: nat, i: nat)
    requires Inv(nfa) && |w| > 0 && Reach(nfa, Root, w).Some?
    ensures Reach(nfa, Root, w[..|w| - 1]) == Some(p) && p in nfa.states
    ensures i < |nfa.states[p].out| && nfa.states[p].out[i] == Arc(w[|w| - 1], Reach(nfa, Root, w).value)
  {
    ReachClosed(nfa, Root, w[..|w| - 1]);
    p := Reach(nfa, Root, w[..|w| - 1]).value;
    i := LookupIndex(nfa.states[p].out, w[|w| - 1]);
  }

  /** In a tree every state is reached from the root by one label sequence only. */
  lemma {:induction false} UniqueAccess(nfa: Nfa, w1: seq<Label>, w2: seq<Label>)
    requires Tree(nfa) && Reach(nfa, Root, w1).Some? && Reach(nfa, Root, w1) == Reach(nfa, Root, w2)
    ensures w1 == w2
    decreases |w1|
  {
    ReachClosed(nfa, Root, w1);
    ReachClosed(nfa, Root, w2);
    if |w1| > 0 && |w2| > 0 {
      var p1, i1 := LastArc(nfa, w1);
      var p2, i2 := LastArc(nfa, w2);
      assert SingleParent(nfa);
      assert p1 == p2 && i1 == i2;
      UniqueAccess(nfa, w1[..|w1| - 1], w2[..|w2| - 1]);
      SnocEqual(w1, w2);
    }
  }

  lemma SnocEqual<T>(a: seq<T>, b: seq<T>)
    requires |a| > 0 && |b| > 0 && a[..|a| - 1] == b[..|b| - 1] && a[|a| - 1] == b[|b| - 1]
    ensures a == b
  {
    assert a == a[..|a| - 1] + [a[|a| - 1]];
    assert b == b[..|b| - 1] + [b[|b| - 1]];
  }

  /** Following one label keeps the shape. */
  lemma FollowInv(nfa: Nfa, s: nat, l: Label, n: Nfa, t: nat)
    requires Inv(nfa) && s in nfa.states && Followed(nfa, s, l, n, t)
    ensures Inv(n)
  {
    if Lookup(nfa.states[s].out, l).None? {
      AddedInv(nfa, n, s, l, t);
    }
  }

  /** Following one label grows the NFA. */
  lemma FollowGrows(nfa: Nfa, s: nat, l: Label, n: Nfa, t: nat)
    requires ArenaOk(nfa) && s in nfa.states && Followed(nfa, s, l, n, t)
    ensures Grows(nfa, n)
  {
    if Lookup(nfa.states[s].out, l).None? {
      AddedGrows(nfa, n, s, l, t);
    }
  }

  /** Following one label keeps the tree shape. */
  lemma FollowTree(nfa: Nfa, s: nat, l: Label, n: Nfa, t: nat)
    requires Tree(nfa) && s in nfa.states && Followed(nfa, s, l, n, t)
    ensures Tree(n)
  {
    FollowInv(nfa, s, l, n, t);
    if Lookup(nfa.states[s].out, l).None? {
      AddedSingleParent(nfa, n, s, l, t);
    }
  }

  lemma AddedInv(m: Nfa, n: Nfa, s: nat, l: Label, t: nat)
    requires Inv(m) && Added(m, n, s, l, t)
    ensures Inv(n)
  {
    AppendArc(m.states[s].out, s, l, t, m.states.Keys, n.states.Keys);
  }

  /** Appending an arc with a new label to a fresh, larger state keeps a state's arcs well formed. */
  lemma AppendArc(out: seq<Arc>, s: nat, l: Label, t: nat, keys: set<nat>, keys': set<nat>)
    requires UniqueLabels(out) && TargetsAbove(out, s) && TargetsIn(out, keys)
    requires l !in OutLabels(out) && s < t && keys' == keys + {t}
    ensures UniqueLabels(out + [Arc(l, t)]) && TargetsAbove(out + [Arc(l, t)], s) && TargetsIn(out + [Arc(l, t)], keys')
  {
    var out' := out + [Arc(l, t)];
    forall i | 0 <= i < |out| ensures out'[i].key != l {
      assert out[i] in out;
    }
  }

  lemma AddedSingleParent(m: Nfa, n: Nfa, s: nat, l: Label, t: nat)
    requires Tree(m) && Added(m, n, s, l, t)
    ensures SingleParent(n)
  {
    var out := m.states[s].out;
    forall s1, s2, i, j |
        s1 in n.states && s2 in n.states && 0 <= i < |n.states[s1].out| && 0 <= j < |n.states[s2].out|
        && n.states[s1].out[i].target == n.states[s2].out[j].target
      ensures s1 == s2 && i == j
    {
      var isNew1 := s1 == s && i == |out|;
      var isNew2 := s2 == s && j == |out|;
      if !isNew1 {
        OldArc(m, n, s, l, t, s1, i);
      }
      if !isNew2 {
        OldArc(m, n, s, l, t, s2, j);
      }
    }
  }

  /** An arc that is not the added one is an arc of the old arena, so it does not lead to `t`. */
  lemma OldArc(m: Nfa, n: Nfa, s: nat, l: Label, t: nat, x: nat, i: nat)
    requires ArenaOk(m) && Added(m, n, s, l, t)
    requires x in n.states && i < |n.states[x].out| && !(x == s && i == |m.states[s].out|)
    ensures x in m.states && i < |m.states[x].out| && n.states[x].out[i] == m.states[x].out[i]
    ensures n.states[x].out[i].target != t
  {
    assert m.states[x].out[i] in m.states[x].out;
  }

  lemma AddedGrows(m: Nfa, n: Nfa, s: nat, l: Label, t: nat)
    requires ArenaOk(m) && Added(m, n, s, l, t)
    ensures Grows(m, n)
  {
    assert forall x | x in m.states :: m.states[x].out <= n.states[x].out;
  }

  lemma FollowAccepts(nfa: Nfa, s: nat, l: Label, n: Nfa, t: nat, w: seq<Label>)
    requires Inv(nfa) && s in nfa.states && Followed(nfa, s, l, n, t)
    ensures Accepts(n, w) <==> Accepts(nfa, w)
  {
    FollowGrows(nfa, s, l, n, t);
    if Reach(nfa, Root, w).Some? {
      ReachClosed(nfa, Root, w);
    }
    GrowsAccepts(nfa, n, w);
  }

  /** One more label: the run continues along the arc with that label. */
  lemma ReachSnoc(nfa: Nfa, u: nat, w: seq<Label>)
    requires |w| > 0
    ensures Reach(nfa, u, w) == match Reach(nfa, u, w[..|w| - 1])
                                 case None => None
                                 case Some(x) => if x in nfa.states then Lookup(nfa.states[x].out, w[|w| - 1]) else None
  {
  }

  lemma {:induction false} SetFinalReach(nfa: Nfa, s: nat, u: nat, w: seq<Label>)
    requires s in nfa.states
    ensures Reach(SetFinal(nfa, s), u, w) == Reach(nfa, u, w)
  {
    if |w| > 0 {
      SetFinalReach(nfa, s, u, w[..|w| - 1]);
    }
  }

  // -- leaf list and backward lists ----------------------------------------------------------------------------------

  /**
   With merging, the leaf list holds exactly the states other than the root
   that have no arc, each once; without merging it stays empty.
   */
  predicate LeafsExact(nfa: Nfa)
  {
    && NoDup(nfa.leafs)
    && (nfa.merge ==> forall x | x in nfa.leafs :: x in nfa.states && x != Root && |nfa.states[x].out| == 0)
    && (nfa.merge ==> forall x | x in nfa.states && x != Root && |nfa.states[x].out| == 0 :: x in nfa.leafs)
    && (!nfa.merge ==> nfa.leafs == [])
  }

  /** Every leaf is final, except possibly the state `cur` a walk stands on. */
  predicate LeafsFinalBut(nfa: Nfa, cur: nat)
  {
    forall x | x in nfa.leafs :: x in nfa.states && (nfa.states[x].isFinal || x == cur)
  }

  /**
   The backward lists are sound: a state listed under a label as a
   predecessor exists and has an arc with that label.
   */
  predicate InListsOk(nfa: Nfa)
  {
    forall t, e, m | t in nfa.states && e in nfa.states[t].incoming && m in e.from ::
      m in nfa.states && e.key in OutLabels(nfa.states[m].out)
  }

  /**
   The backward lists are exact: a state listed under a label as a
   predecessor has an arc with that label to the state keeping the list.
   This holds as long as the NFA is only built, not merged.
   */
  predicate InListsExact(nfa: Nfa)
  {
    forall t, e, m | t in nfa.states && e in nfa.states[t].incoming && m in e.from ::
      m in nfa.states && Arc(e.key, t) in nfa.states[m].out
  }

  lemma FollowBookkeeping(nfa: Nfa, s: nat, l: Label, n: Nfa, t: nat)
    requires Inv(nfa) && s in nfa.states && Followed(nfa, s, l, n, t)
    requires LeafsExact(nfa) && InListsOk(nfa) && InListsExact(nfa) && LeafsFinalBut(nfa, s)
    ensures LeafsExact(n) && InListsOk(n) && InListsExact(n) && LeafsFinalBut(n, t)
  {
    if Lookup(nfa.states[s].out, l).None? {
      AddedLabels(nfa, n, s, l, t);
      AddedLeafs(nfa, n, s, l, t);
      AddedIncoming(nfa, n, s, l, t);
      AddedInLists(nfa, n, s, l, t);
      AddedArena(nfa, n, s, l, t);
      AddedInListsExact(nfa, n, s, l, t);
    } else {
      assert Arc(l, t) in nfa.states[s].out;
    }
  }

  lemma AddedLabels(m: Nfa, n: Nfa, s: nat, l: Label, t: nat)
    requires Added(m, n, s, l, t)
    ensures OutLabels(n.states[s].out) == OutLabels(m.states[s].out) + {l}
    ensures forall x | x in m.states && x != s :: OutLabels(n.states[x].out) == OutLabels(m.states[x].out)
    ensures |n.states[s].out| == |m.states[s].out| + 1 && n.states[t].out == []
    ensures l in OutLabels(n.states[s].out)
    ensures forall x | x in m.states :: OutLabels(m.states[x].out) <= OutLabels(n.states[x].out)
  {
    var out := m.states[s].out;
    assert n.states[s].out == out + [Arc(l, t)];
  }

  lemma AddedLeafs(m: Nfa, n: Nfa, s: nat, l: Label, t: nat)
    requires ArenaOk(m) && Added(m, n, s, l, t) && LeafsExact(m) && LeafsFinalBut(m, s)
    requires |n.states[s].out| == |m.states[s].out| + 1 && n.states[t].out == []
    ensures LeafsExact(n) && LeafsFinalBut(n, t)
  {
    var leafs := if m.merge then m.leafs + [t] else m.leafs;
    assert NoDup(leafs);
    assert t != Root;
    if |m.states[s].out| == 0 {
      assert n.leafs == RemoveFirst(leafs, s);
      RemoveFirstFacts(leafs, s);
    } else {
      assert s !in m.leafs;
    }
  }

  /** What Added does to the backward lists: only the new state gets one, naming `s` under `l`. */
  predicate IncomingKept(m: Nfa, n: Nfa, s: nat, l: Label, t: nat)
  {
    && s in m.states && n.states.Keys == m.states.Keys + {t}
    && (forall e | e in n.states[t].incoming :: e == InEntry(l, [s]))
    && (forall x | x in m.states :: n.states[x].incoming == m.states[x].incoming)
  }

  lemma AddedIncoming(m: Nfa, n: Nfa, s: nat, l: Label, t: nat)
    requires Added(m, n, s, l, t)
    ensures IncomingKept(m, n, s, l, t)
  {
    forall x | x in m.states ensures n.states[x].incoming == m.states[x].incoming {
      if x == s {
        assert n.states[s] == m.states[s].(out := m.states[s].out + [Arc(l, t)]);
      }
    }
  }

  lemma AddedInLists(m: Nfa, n: Nfa, s: nat, l: Label, t: nat)
    requires IncomingKept(m, n, s, l, t) && InListsOk(m)
    requires l in OutLabels(n.states[s].out)
    requires forall x | x in m.states :: OutLabels(m.states[x].out) <= OutLabels(n.states[x].out)
    ensures InListsOk(n)
  {
    forall x, e, q | x in n.states && e in n.states[x].incoming && q in e.from
      ensures q in n.states && e.key in OutLabels(n.states[q].out)
    {
      if x != t {
        assert e in m.states[x].incoming;
      }
    }
    InListsOkIntro(n);
  }

  /** A fresh state lists its one predecessor, whose new arc leads to it; the old arcs keep their targets. */
  lemma AddedInListsExact(m: Nfa, n: Nfa, s: nat, l: Label, t: nat)
    requires IncomingKept(m, n, s, l, t) && InListsExact(m)
    requires n.states[s].out == m.states[s].out + [Arc(l, t)]
    requires forall x | x in m.states && x != s :: n.states[x].out == m.states[x].out
    ensures InListsExact(n)
  {
    forall x, e, q | x in n.states && e in n.states[x].incoming && q in e.from
      ensures q in n.states && Arc(e.key, x) in n.states[q].out
    {
      if x == t {
        NewEntryExact(n.states[t].incoming, l, s, e, q);
      } else {
        OldEntryExact(m, x, e, q);
      }
    }
  }

  lemma NewEntryExact(inc: seq<InEntry>, l: Label, s: nat, e: InEntry, q: nat)
    requires (forall e' | e' in inc :: e' == InEntry(l, [s])) && e in inc && q in e.from
    ensures q == s && e.key == l
  {
  }

  lemma OldEntryExact(m: Nfa, x: nat, e: InEntry, q: nat)
    requires InListsExact(m) && x in m.states && e in m.states[x].incoming && q in e.from
    ensures q in m.states && Arc(e.key, x) in m.states[q].out
  {
  }

  /** InListsOk, from its quantifier stated outright. */
  lemma InListsOkIntro(n: Nfa)
    requires forall t, e, q | t in n.states && e in n.states[t].incoming && q in e.from ::
               q in n.states && e.key in OutLabels(n.states[q].out)
    ensures InListsOk(n)
  {
  }

  /** Leaves are final between paths. */
  predicate LeafsFinal(nfa: Nfa)
  {
    forall x | x in nfa.leafs :: x in nfa.states && nfa.states[x].isFinal
  }

  lemma SetFinalBookkeeping(nfa: Nfa, t: nat)
    requires t in nfa.states && LeafsExact(nfa) && InListsOk(nfa) && InListsExact(nfa) && LeafsFinalBut(nfa, t)
    ensures LeafsExact(SetFinal(nfa, t)) && InListsOk(SetFinal(nfa, t)) && InListsExact(SetFinal(nfa, t))
    ensures LeafsFinal(SetFinal(nfa, t))
  {
    var r := SetFinal(nfa, t);
    assert forall x | x in r.states :: OutLabels(r.states[x].out) == OutLabels(nfa.states[x].out);
    SetFinalExact(nfa, t);
  }

  lemma SetFinalExact(nfa: Nfa, t: nat)
    requires t in nfa.states && InListsExact(nfa)
    ensures InListsExact(SetFinal(nfa, t))
  {
    var r := SetFinal(nfa, t);
    assert forall x | x in r.states :: r.states[x].incoming == nfa.states[x].incoming;
  }

  // -- addPath and the NFA of a partition --------------------------------------------------------------------------

  /** The shape an output NFA has between two added paths. */
  predicate Built(nfa: Nfa)
  {
    Tree(nfa) && LeafsExact(nfa) && InListsOk(nfa) && InListsExact(nfa) && LeafsFinal(nfa)
  }

  /**
   addPath: follows the (transition id, item) pairs from the root, creating
   states as needed, and marks the state reached final. The NFA accepts the
   path's label sequence afterwards and nothing else it did not accept before.
   */
  method AddPath(nfa: Nfa, path: seq<int>) returns (r: Nfa)
    requires Built(nfa) && |path| % 2 == 0
    ensures Built(r) && r.merge == nfa.merge
    ensures forall w :: Accepts(r, w) <==> Accepts(nfa, w) || w == Labels(path)
  {
    var n, cur, k := nfa, Root, 0;
    assert Labels(path)[..0] == [];
    while 2 * k + 1 < |path|
      invariant 2 * k <= |path|
      invariant Walking(nfa, n, cur, path, k)
      decreases |path| - k
    {
      var n', cur' := Follow(n, cur, PairLabel(path, k));
      WalkingStep(nfa, n, cur, path, k, n', cur');
      n, cur, k := n', cur', k + 1;
    }
    assert Labels(path)[..k] == Labels(path);
    r := SetFinal(n, cur);
    AddPathEnd(nfa, n, cur, path);
  }

  /**
   The loop invariant of addPath after k pairs: the NFA kept its shape and
   language, and `cur` is the state the first k labels lead to.
   */
  ghost predicate Walking(nfa: Nfa, n: Nfa, cur: nat, path: seq<int>, k: nat)
    requires 2 * k <= |path|
  {
    && Tree(n) && cur in n.states && n.merge == nfa.merge
    && LeafsExact(n) && InListsOk(n) && InListsExact(n) && LeafsFinalBut(n, cur)
    && Reach(n, Root, Labels(path)[..k]) == Some(cur)
    && (forall w :: Accepts(n, w) <==> Accepts(nfa, w))
  }

  lemma WalkingStep(nfa: Nfa, n: Nfa, cur: nat, path: seq<int>, k: nat, n': Nfa, cur': nat)
    requires 2 * k + 1 < |path| && Walking(nfa, n, cur, path, k)
    requires Followed(n, cur, PairLabel(path, k), n', cur') && Lookup(n'.states[cur].out, PairLabel(path, k)) == Some(cur')
    ensures Walking(nfa, n', cur', path, k + 1)
  {
    var l := PairLabel(path, k);
    FollowTree(n, cur, l, n', cur');
    FollowBookkeeping(n, cur, l, n', cur');
    FollowGrows(n, cur, l, n', cur');
    forall w ensures Accepts(n', w) <==> Accepts(n, w) {
      FollowAccepts(n, cur, l, n', cur', w);
    }
    WalkingReach(n, cur, path, k, n', cur');
  }

  /** The first k + 1 labels lead to the state the (k+1)-th label was followed to. */
  lemma WalkingReach(n: Nfa, cur: nat, path: seq<int>, k: nat, n': Nfa, cur': nat)
    requires 2 * k + 1 < |path| && Grows(n, n') && Root in n.states && cur in n.states
    requires Reach(n, Root, Labels(path)[..k]) == Some(cur)
    requires cur in n'.states && Lookup(n'.states[cur].out, PairLabel(path, k)) == Some(cur')
    ensures Reach(n', Root, Labels(path)[..k + 1]) == Some(cur')
  {
    ReachKept(n, n', Root, Labels(path)[..k]);
    var w := Labels(path)[..k + 1];
    assert w[..k] == Labels(path)[..k] && w[k] == PairLabel(path, k);
    ReachSnoc(n', Root, w);
  }

  lemma AddPathEnd(nfa: Nfa, n: Nfa, cur: nat, path: seq<int>)
    requires |path| % 2 == 0 && Walking(nfa, n, cur, path, |path| / 2)
    requires Labels(path)[..|path| / 2] == Labels(path)
    ensures Built(SetFinal(n, cur))
    ensures forall w :: Accepts(SetFinal(n, cur), w) <==> Accepts(nfa, w) || w == Labels(path)
  {
    SetFinalBookkeeping(n, cur);
    var r := SetFinal(n, cur);
    forall w ensures Accepts(r, w) <==> Accepts(nfa, w) || w == Labels(path) {
      SetFinalReach(n, cur, Root, w);
      if Reach(n, Root, w) == Some(cur) {
        UniqueAccess(n, w, Labels(path));
      }
    }
    assert Tree(r);
  }

  /**
   The NFA of one partition in tree mode before its suffixes are merged: the
   paths of the partition added one after another to a fresh NFA. It accepts
   exactly the label sequences of the paths.
   */
  method BuildNfa(paths: seq<seq<int>>, merge: bool) returns (r: Nfa)
    requires EvenPaths(paths)
    ensures Built(r) && r.merge == merge
    ensures forall w :: Accepts(r, w) <==> exists i | 0 <= i < |paths| :: w == Labels(paths[i])
  {
    r := Empty(merge);
    var j := 0;
    while j < |paths|
      invariant j <= |paths|
      invariant Built(r) && r.merge == merge
      invariant forall w :: Accepts(r, w) <==> exists i | 0 <= i < j :: w == Labels(paths[i])
    {
      var prev := r;
      r := AddPath(r, paths[j]);
      forall w ensures Accepts(r, w) <==> exists i | 0 <= i < j + 1 :: w == Labels(paths[i]) {
        if Accepts(r, w) && !Accepts(prev, w) {
          assert w == Labels(paths[j]);
        }
      }
      j := j + 1;
    }
  }
}
