/**
 Merging the suffixes of an output NFA (PathState.attemptMerge and
 OutputNFA.mergeSuffixes). Every leaf is merged into the first one; merging
 a state redirects its predecessors to the state it is merged into and then
 tries to merge those predecessors, recursively, into the predecessors the
 kept state already has under the same label.

 The arena keeps the dropped states (the Java objects stay allocated; only
 the diagnostic list of states forgets them).
 */
module SuffixMerge {
  import opened Basics
  import opened OutputNfa

  // -- out-arcs as a map -----------------------------------------------------------------------------------------------

  /** outTransitions.put(l, t): replaces the target of the arc labelled `l`, or appends one. */
  function Put(out: seq<Arc>, l: Label, t: nat): (r: seq<Arc>)
    ensures Lookup(r, l) == Some(t)
    ensures forall k | k != l :: Lookup(r, k) == Lookup(out, k)
    ensures OutLabels(r) == OutLabels(out) + {l}
    ensures forall a | a in r :: a in out || a == Arc(l, t)
  {
    if |out| == 0 then [Arc(l, t)]
    else if out[0].key == l then [Arc(l, t)] + out[1..]
    else
      var rest := Put(out[1..], l, t);
      PutCons(out, l, t, rest);
      [out[0]] + rest
  }

  /** Put past a first arc with another label keeps that arc in front of the rest. */
  lemma PutCons(out: seq<Arc>, l: Label, t: nat, rest: seq<Arc>)
    requires |out| > 0 && out[0].key != l
    requires Lookup(rest, l) == Some(t)
    requires forall k | k != l :: Lookup(rest, k) == Lookup(out[1..], k)
    requires OutLabels(rest) == OutLabels(out[1..]) + {l}
    requires forall a | a in rest :: a in out[1..] || a == Arc(l, t)
    ensures Lookup([out[0]] + rest, l) == Some(t)
    ensures forall k | k != l :: Lookup([out[0]] + rest, k) == Lookup(out, k)
    ensures OutLabels([out[0]] + rest) == OutLabels(out) + {l}
    ensures forall a | a in [out[0]] + rest :: a in out || a == Arc(l, t)
  {
    var r := [out[0]] + rest;
    assert r[1..] == rest;
    assert out == [out[0]] + out[1..];
    assert OutLabels(r) == {out[0].key} + OutLabels(rest);
    assert OutLabels(out) == {out[0].key} + OutLabels(out[1..]);
    assert forall a | a in r :: a == out[0] || a in rest;
  }

  /** outTransitions.equals: the same label leads to the same state, for every label. */
  predicate SameOut(a: seq<Arc>, b: seq<Arc>)
  {
    OutLabels(a) == OutLabels(b) && forall l | l in OutLabels(a) :: Lookup(a, l) == Lookup(b, l)
  }

  lemma SameOutIsMapEquality(a: seq<Arc>, b: seq<Arc>)
    ensures SameOut(a, b) <==> forall l :: Lookup(a, l) == Lookup(b, l)
  {
    if SameOut(a, b) {
      forall l ensures Lookup(a, l) == Lookup(b, l) {
        if l !in OutLabels(a) {
          assert l !in OutLabels(b);
        }
      }
    } else if OutLabels(a) != OutLabels(b) {
      var l :| (l in OutLabels(a)) != (l in OutLabels(b));
      assert Lookup(a, l).Some? != Lookup(b, l).Some?;
    } else {
      var l :| l in OutLabels(a) && Lookup(a, l) != Lookup(b, l);
      assert Lookup(a, l) != Lookup(b, l);
    }
  }

  // -- backward lists as a map -----------------------------------------------------------------------------------------

  /** inTransitions.get(l): the predecessor list stored under `l`, if any. */
  function InList(inc: seq<InEntry>, l: Label): (r: Option<seq<nat>>)
    ensures r.Some? ==> InEntry(l, r.value) in inc
    ensures r.None? ==> forall e | e in inc :: e.key != l
  {
    if |inc| == 0 then None
    else if inc[0].key == l then Some(inc[0].from)
    else
      assert inc == [inc[0]] + inc[1..];
      InList(inc[1..], l)
  }

  /** inTransitions.put(l, v): replaces the list stored under `l`, or adds an entry. */
  function SetIn(inc: seq<InEntry>, l: Label, v: seq<nat>): (r: seq<InEntry>)
    ensures InList(r, l) == Some(v)
    ensures forall k | k != l :: InList(r, k) == InList(inc, k)
    ensures forall e | e in r :: e in inc || e == InEntry(l, v)
  {
    if |inc| == 0 then [InEntry(l, v)]
    else if inc[0].key == l then [InEntry(l, v)] + inc[1..]
    else
      var rest := SetIn(inc[1..], l, v);
      assert forall e | e in [inc[0]] + rest :: e == inc[0] || e in rest;
      [inc[0]] + rest
  }

  /** The labels of the entries, in order (the key set iterated by entrySet). */
  function InKeys(inc: seq<InEntry>): (r: seq<Label>)
    ensures |r| == |inc| && forall i | 0 <= i < |inc| :: r[i] == inc[i].key
  {
    seq(|inc|, i requires 0 <= i < |inc| => inc[i].key)
  }

  // -- updates of the arena --------------------------------------------------------------------------------------------

  /** mergeInState.outTransitions.put(l, keep). */
  function Redirect(nfa: Nfa, m: nat, l: Label, keep: nat): (r: Nfa)
    ensures r.states.Keys == nfa.states.Keys && r.leafs == nfa.leafs && r.merge == nfa.merge && r.next == nfa.next
    ensures m in nfa.states ==> Lookup(r.states[m].out, l) == Some(keep)
    ensures forall x | x in nfa.states && x != m :: r.states[x] == nfa.states[x]
  {
    if m in nfa.states then
      nfa.(states := nfa.states[m := nfa.states[m].(out := Put(nfa.states[m].out, l, keep))])
    else nfa
  }

  /** The redirection loop of the branch that adopts a whole predecessor list. */
  function RedirectAll(nfa: Nfa, froms: seq<nat>, l: Label, keep: nat): (r: Nfa)
    ensures r.states.Keys == nfa.states.Keys && r.leafs == nfa.leafs && r.merge == nfa.merge && r.next == nfa.next
    ensures forall m | m in froms && m in nfa.states :: Lookup(r.states[m].out, l) == Some(keep)
    ensures forall x | x in nfa.states && x !in froms :: r.states[x] == nfa.states[x]
    decreases |froms|
  {
    if |froms| == 0 then nfa
    else
      var n := Redirect(nfa, froms[0], l, keep);
      var r := RedirectAll(n, froms[1..], l, keep);
      assert forall m | m in froms :: m == froms[0] || m in froms[1..];
      assert froms[0] in nfa.states && froms[0] !in froms[1..] ==> r.states[froms[0]] == n.states[froms[0]];
      r
  }

  /** x.inTransitions.put(l, v). */
  function SetInList(nfa: Nfa, x: nat, l: Label, v: seq<nat>): (r: Nfa)
    ensures r.states.Keys == nfa.states.Keys && r.leafs == nfa.leafs && r.merge == nfa.merge && r.next == nfa.next
    ensures x in nfa.states ==> InList(r.states[x].incoming, l) == Some(v)
    ensures forall y | y in nfa.states && y != x :: r.states[y] == nfa.states[y]
    ensures forall y | y in nfa.states :: r.states[y].out == nfa.states[y].out && r.states[y].isFinal == nfa.states[y].isFinal
  {
    if x in nfa.states then
      nfa.(states := nfa.states[x := nfa.states[x].(incoming := SetIn(nfa.states[x].incoming, l, v))])
    else nfa
  }

  /** The list x.inTransitions.get(l), or the empty list when there is none. */
  function InListOf(nfa: Nfa, x: nat, l: Label): seq<nat>
  {
    if x in nfa.states && InList(nfa.states[x].incoming, l).Some? then InList(nfa.states[x].incoming, l).value else []
  }

  /**
   The removal of `drop` from the backward lists of the states it leads to,
   one arc at a time. An arc whose target keeps no list under its label
   leaves the arena unchanged.
   */
  function Detach(nfa: Nfa, drop: nat, arcs: seq<Arc>): (r: Nfa)
    ensures r.states.Keys == nfa.states.Keys && r.leafs == nfa.leafs && r.merge == nfa.merge && r.next == nfa.next
    ensures forall y | y in nfa.states :: r.states[y].out == nfa.states[y].out && r.states[y].isFinal == nfa.states[y].isFinal
    decreases |arcs|
  {
    if |arcs| == 0 then nfa
    else Detach(DetachOne(nfa, drop, arcs[0]), drop, arcs[1..])
  }

  /** target.inTransitions.get(label).remove(drop) for one arc (label, target). */
  function DetachOne(nfa: Nfa, drop: nat, a: Arc): (r: Nfa)
    ensures r.states.Keys == nfa.states.Keys && r.leafs == nfa.leafs && r.merge == nfa.merge && r.next == nfa.next
    ensures forall y | y in nfa.states :: r.states[y].out == nfa.states[y].out && r.states[y].isFinal == nfa.states[y].isFinal
  {
    if a.target in nfa.states && InList(nfa.states[a.target].incoming, a.key).Some? then
      SetInList(nfa, a.target, a.key, RemoveFirst(InList(nfa.states[a.target].incoming, a.key).value, drop))
    else nfa
  }

  // -- attemptMerge ----------------------------------------------------------------------------------------------------

  /** The merge guard: same finality and the same out-transitions. */
  predicate Mergeable(nfa: Nfa, keep: nat, drop: nat)
  {
    && keep in nfa.states && drop in nfa.states
    && nfa.states[keep].isFinal == nfa.states[drop].isFinal
    && SameOut(nfa.states[keep].out, nfa.states[drop].out)
  }

  /**
   keep.attemptMerge(drop). The recursion through the predecessors is
   bounded by `fuel`; an exhausted budget answers false without changing
   anything. On success `drop` is no longer reached through the lists it
   kept, and its out-arcs no longer list it as a predecessor.
   */
  function AttemptMerge(nfa: Nfa, keep: nat, drop: nat, fuel: nat): (r: (Nfa, bool))
    ensures keep == drop ==> r == (nfa, true)
    ensures keep != drop && !Mergeable(nfa, keep, drop) ==> r == (nfa, false)
    ensures r.1 ==> keep == drop || Mergeable(nfa, keep, drop)
    ensures !r.1 ==> r.0 == nfa
    decreases fuel, 0, 0
  {
    if keep == drop then (nfa, true)
    else if !Mergeable(nfa, keep, drop) || fuel == 0 then (nfa, false)
    else (MergeInto(nfa, keep, drop, fuel - 1), true)
  }

  /** The merge once the guard has passed: drop's entries merged into keep, then drop taken off its targets' lists. */
  function MergeInto(nfa: Nfa, keep: nat, drop: nat, fuel: nat): Nfa
    requires drop in nfa.states
    decreases fuel, 4, 0
  {
    var n1 := MergeEntries(nfa, keep, drop, InKeys(nfa.states[drop].incoming), fuel);
    Detach(n1, drop, if drop in n1.states then n1.states[drop].out else [])
  }

  /** The loop over the entries (label, predecessors) of drop's backward lists. */
  function MergeEntries(nfa: Nfa, keep: nat, drop: nat, keys: seq<Label>, fuel: nat): (r: Nfa)
    decreases fuel, 3, |keys|
  {
    if |keys| == 0 then nfa
    else
      var l := keys[0];
      var froms := InListOf(nfa, drop, l);
      var n :=
        if keep in nfa.states && InList(nfa.states[keep].incoming, l).Some? then MergeFroms(nfa, keep, l, froms, fuel)
        else RedirectAll(SetInList(nfa, keep, l, froms), froms, l, keep);
      MergeEntries(n, keep, drop, keys[1..], fuel)
  }

  /**
   The branch where `keep` already has predecessors under `l`: each
   predecessor of `drop` is redirected to `keep`, then merged into the first
   existing predecessor that accepts it, or else added to keep's list.
   */
  function MergeFroms(nfa: Nfa, keep: nat, l: Label, froms: seq<nat>, fuel: nat): (r: Nfa)
    decreases fuel, 2, |froms|
  {
    if |froms| == 0 then nfa
    else
      var m := froms[0];
      var n1 := Redirect(nfa, m, l, keep);
      var tried := TryCandidates(n1, m, InListOf(n1, keep, l), fuel);
      var n2 := if tried.1 then tried.0 else SetInList(tried.0, keep, l, InListOf(tried.0, keep, l) + [m]);
      MergeFroms(n2, keep, l, froms[1..], fuel)
  }

  /** Tries the candidates in order and stops at the first successful merge. */
  function TryCandidates(nfa: Nfa, m: nat, cands: seq<nat>, fuel: nat): (r: (Nfa, bool))
    ensures !r.1 ==> r.0 == nfa
    decreases fuel, 1, |cands|
  {
    if |cands| == 0 then (nfa, false)
    else
      var tried := AttemptMerge(nfa, cands[0], m, fuel);
      if tried.1 then tried else TryCandidates(nfa, m, cands[1..], fuel)
  }

  // -- what a merge leaves unchanged -----------------------------------------------------------------------------------

  /**
   `n` differs from `m` only in where arcs lead and in the backward lists:
   the same states, each with its finality and its set of out-labels, the
   same leaf list.
   */
  predicate Frame(m: Nfa, n: Nfa)
  {
    && n.states.Keys == m.states.Keys && n.leafs == m.leafs && n.merge == m.merge && n.next == m.next
    && forall x | x in m.states :: n.states[x].isFinal == m.states[x].isFinal && OutLabels(n.states[x].out) == OutLabels(m.states[x].out)
  }

  /** Every state of `froms` exists and has an arc labelled `l`. */
  predicate Listed(nfa: Nfa, l: Label, froms: seq<nat>)
  {
    forall m | m in froms :: m in nfa.states && l in OutLabels(nfa.states[m].out)
  }

  lemma ListedFrame(m: Nfa, n: Nfa, l: Label, froms: seq<nat>)
    requires Listed(m, l, froms) && Frame(m, n)
    ensures Listed(n, l, froms)
  {
  }

  lemma InListOfListed(nfa: Nfa, x: nat, l: Label)
    requires InListsOk(nfa)
    ensures Listed(nfa, l, InListOf(nfa, x, l))
  {
    if x in nfa.states && InList(nfa.states[x].incoming, l).Some? {
      assert InEntry(l, InListOf(nfa, x, l)) in nfa.states[x].incoming;
    }
  }

  lemma RedirectFrame(nfa: Nfa, m: nat, l: Label, keep: nat)
    requires InListsOk(nfa) && Listed(nfa, l, [m]) && ArenaOk(nfa) && keep in nfa.states
    ensures Frame(nfa, Redirect(nfa, m, l, keep)) && InListsOk(Redirect(nfa, m, l, keep)) && ArenaOk(Redirect(nfa, m, l, keep))
  {
    var r := Redirect(nfa, m, l, keep);
    assert m in nfa.states && l in OutLabels(nfa.states[m].out);
    forall x | x in nfa.states
      ensures r.states[x].incoming == nfa.states[x].incoming && r.states[x].isFinal == nfa.states[x].isFinal
      ensures OutLabels(r.states[x].out) == OutLabels(nfa.states[x].out)
    {
    }
    SameListsFrame(nfa, r);
    assert TargetsIn(r.states[m].out, r.states.Keys);
  }

  /** A change of arc targets alone, keeping every out-label, keeps the backward lists sound. */
  lemma SameListsFrame(m: Nfa, n: Nfa)
    requires InListsOk(m)
    requires n.states.Keys == m.states.Keys && n.leafs == m.leafs && n.merge == m.merge && n.next == m.next
    requires forall x | x in m.states ::
               && n.states[x].incoming == m.states[x].incoming && n.states[x].isFinal == m.states[x].isFinal
               && OutLabels(n.states[x].out) == OutLabels(m.states[x].out)
    ensures Frame(m, n) && InListsOk(n)
  {
  }

  lemma FrameTrans(a: Nfa, b: Nfa, c: Nfa)
    requires Frame(a, b) && Frame(b, c)
    ensures Frame(a, c)
  {
  }

  lemma FrameRefl(nfa: Nfa)
    ensures Frame(nfa, nfa)
  {
  }

  /** Storing a list of states that all have an arc labelled `l` under `l` keeps the backward lists sound. */
  lemma SetInListFrame(nfa: Nfa, x: nat, l: Label, v: seq<nat>)
    requires InListsOk(nfa) && Listed(nfa, l, v)
    ensures Frame(nfa, SetInList(nfa, x, l, v)) && InListsOk(SetInList(nfa, x, l, v))
    ensures ArenaOk(nfa) ==> ArenaOk(SetInList(nfa, x, l, v))
  {
    var n := SetInList(nfa, x, l, v);
    forall y | y in nfa.states ensures n.states[y].isFinal == nfa.states[y].isFinal && OutLabels(n.states[y].out) == OutLabels(nfa.states[y].out) {
    }
    SetInListInLists(nfa, x, l, v);
  }

  lemma SetInListInLists(nfa: Nfa, x: nat, l: Label, v: seq<nat>)
    requires InListsOk(nfa) && Listed(nfa, l, v)
    ensures InListsOk(SetInList(nfa, x, l, v))
  {
    var n := SetInList(nfa, x, l, v);
    forall t, e, q | t in n.states && e in n.states[t].incoming && q in e.from
      ensures q in n.states && e.key in OutLabels(n.states[q].out)
    {
      SetInListSource(nfa, x, l, v, t, e, q);
    }
    InListsOkIntro(n);
  }

  /** One entry of the backward lists after SetInList names a state with an arc of its label. */
  lemma SetInListSource(nfa: Nfa, x: nat, l: Label, v: seq<nat>, t: nat, e: InEntry, q: nat)
    requires InListsOk(nfa) && Listed(nfa, l, v)
    requires t in nfa.states && e in SetInList(nfa, x, l, v).states[t].incoming && q in e.from
    ensures q in nfa.states && e.key in OutLabels(SetInList(nfa, x, l, v).states[q].out)
  {
    if t == x {
      assert SetInList(nfa, x, l, v).states[x].incoming == SetIn(nfa.states[x].incoming, l, v);
    } else {
      assert SetInList(nfa, x, l, v).states[t] == nfa.states[t];
    }
  }

  // -- what a merge keeps: the language -------------------------------------------------------------------------------

  /** `w` leads from `x` to a final state, read label by label from the front. */
  predicate AcceptsFrom(nfa: Nfa, x: nat, w: seq<Label>)
    decreases |w|
  {
    && x in nfa.states
    && (if |w| == 0 then nfa.states[x].isFinal
        else Lookup(nfa.states[x].out, w[0]).Some? && AcceptsFrom(nfa, Lookup(nfa.states[x].out, w[0]).value, w[1..]))
  }

  /** The right language of `x`: the label sequences that lead from `x` to a final state. */
  ghost function Lang(nfa: Nfa, x: nat): iset<seq<Label>>
  {
    iset w | AcceptsFrom(nfa, x, w)
  }

  /** A run read from the front: the first label moves along its arc, the rest is read from there. */
  lemma {:induction false} ReachCons(nfa: Nfa, x: nat, w: seq<Label>)
    requires |w| > 0
    ensures Reach(nfa, x, w) == if x in nfa.states && Lookup(nfa.states[x].out, w[0]).Some?
                                then Reach(nfa, Lookup(nfa.states[x].out, w[0]).value, w[1..]) else None
    decreases |w|
  {
    if |w| > 1 {
      var w' := w[..|w| - 1];
      ReachCons(nfa, x, w');
      assert w'[0] == w[0] && w'[1..] == w[1..][..|w| - 2];
    }
  }

  lemma {:induction false} AcceptsFromReach(nfa: Nfa, x: nat, w: seq<Label>)
    ensures AcceptsFrom(nfa, x, w) <==>
              Reach(nfa, x, w).Some? && Reach(nfa, x, w).value in nfa.states && nfa.states[Reach(nfa, x, w).value].isFinal
    decreases |w|
  {
    if |w| > 0 {
      ReachCons(nfa, x, w);
      if x in nfa.states && Lookup(nfa.states[x].out, w[0]).Some? {
        AcceptsFromReach(nfa, Lookup(nfa.states[x].out, w[0]).value, w[1..]);
      }
    }
  }

  /** The NFA accepts exactly the right language of its root. */
  lemma AcceptsRoot(nfa: Nfa, w: seq<Label>)
    ensures Accepts(nfa, w) <==> w in Lang(nfa, Root)
  {
    AcceptsFromReach(nfa, Root, w);
  }

  /** Two mergeable states have the same right language. */
  lemma MergeableLang(n: Nfa, keep: nat, drop: nat)
    requires Mergeable(n, keep, drop)
    ensures Lang(n, keep) == Lang(n, drop)
  {
    SameOutIsMapEquality(n.states[keep].out, n.states[drop].out);
    forall w ensures AcceptsFrom(n, keep, w) <==> AcceptsFrom(n, drop, w) {
      if |w| > 0 {
        assert Lookup(n.states[keep].out, w[0]) == Lookup(n.states[drop].out, w[0]);
      }
    }
  }

  /**
   Every arc of `n` leads to a state whose right language in `n0` is that of
   the state the same arc leads to in `n0`.
   */
  ghost predicate ArcsLang(n0: Nfa, n: Nfa)
  {
    forall x, l | x in n0.states && x in n.states && Lookup(n.states[x].out, l).Some? ::
      && Lookup(n0.states[x].out, l).Some?
      && Lang(n0, Lookup(n.states[x].out, l).value) == Lang(n0, Lookup(n0.states[x].out, l).value)
  }

  /** The states of `v` lead in `n0` under `l` to a state with the right language `t` has in `n0`. */
  ghost predicate ListLang(n0: Nfa, l: Label, v: seq<nat>, t: nat)
  {
    forall m | m in v ::
      m in n0.states && Lookup(n0.states[m].out, l).Some? && Lang(n0, Lookup(n0.states[m].out, l).value) == Lang(n0, t)
  }

  /** Every backward list of `n` is a list of predecessors as far as the languages of `n0` can tell. */
  ghost predicate ListsLang(n0: Nfa, n: Nfa)
  {
    forall t, e | t in n.states && e in n.states[t].incoming :: ListLang(n0, e.key, e.from, t)
  }

  /** The invariant of merging, relative to the NFA `n0` the merges started from. */
  ghost predicate Merging(n0: Nfa, n: Nfa)
  {
    Frame(n0, n) && InListsOk(n) && ArenaOk(n) && ArcsLang(n0, n) && ListsLang(n0, n)
  }

  /** A built NFA, whose backward lists are exact, starts the merging. */
  lemma MergingStart(n0: Nfa)
    requires Inv(n0) && InListsOk(n0) && InListsExact(n0)
    ensures Merging(n0, n0)
  {
    forall t, e | t in n0.states && e in n0.states[t].incoming ensures ListLang(n0, e.key, e.from, t) {
      forall m | m in e.from ensures Lookup(n0.states[m].out, e.key) == Some(t) {
        var i :| 0 <= i < |n0.states[m].out| && n0.states[m].out[i] == Arc(e.key, t);
        LookupUnique(n0.states[m].out, i);
      }
    }
    FrameRefl(n0);
  }

  lemma FrameBetween(n0: Nfa, a: Nfa, b: Nfa)
    requires Frame(n0, a) && Frame(n0, b)
    ensures Frame(a, b)
  {
  }

  lemma {:induction false} AcceptsFromKept(n0: Nfa, n: Nfa, x: nat, w: seq<Label>)
    requires Frame(n0, n) && ArcsLang(n0, n)
    ensures AcceptsFrom(n, x, w) <==> AcceptsFrom(n0, x, w)
    decreases |w|
  {
    if |w| > 0 && x in n0.states {
      var l := w[0];
      assert Lookup(n.states[x].out, l).Some? <==> Lookup(n0.states[x].out, l).Some?;
      if Lookup(n.states[x].out, l).Some? {
        var t, t0 := Lookup(n.states[x].out, l).value, Lookup(n0.states[x].out, l).value;
        AcceptsFromKept(n0, n, t, w[1..]);
        assert w[1..] in Lang(n0, t) <==> w[1..] in Lang(n0, t0);
      }
    }
  }

  /** While merging, every state keeps its right language. */
  lemma LangKept(n0: Nfa, n: Nfa, x: nat)
    requires Frame(n0, n) && ArcsLang(n0, n)
    ensures Lang(n, x) == Lang(n0, x)
  {
    forall w ensures AcceptsFrom(n, x, w) <==> AcceptsFrom(n0, x, w) {
      AcceptsFromKept(n0, n, x, w);
    }
  }

  lemma InListOfLang(n0: Nfa, n: Nfa, x: nat, l: Label)
    requires ListsLang(n0, n)
    ensures ListLang(n0, l, InListOf(n, x, l), x)
  {
    if x in n.states && InList(n.states[x].incoming, l).Some? {
      assert InEntry(l, InListOf(n, x, l)) in n.states[x].incoming;
    }
  }

  /** Redirecting an arc to a state with the language of its old target keeps the invariant. */
  lemma RedirectLang(n0: Nfa, n: Nfa, m: nat, l: Label, keep: nat)
    requires Merging(n0, n) && Listed(n, l, [m]) && keep in n.states && ListLang(n0, l, [m], keep)
    ensures Merging(n0, Redirect(n, m, l, keep))
  {
    RedirectFrame(n, m, l, keep);
    FrameTrans(n0, n, Redirect(n, m, l, keep));
    RedirectArcsLang(n0, n, m, l, keep);
    RedirectListsLang(n0, n, m, l, keep);
  }

  lemma RedirectListsLang(n0: Nfa, n: Nfa, m: nat, l: Label, keep: nat)
    requires ListsLang(n0, n)
    ensures ListsLang(n0, Redirect(n, m, l, keep))
  {
    var r := Redirect(n, m, l, keep);
    assert forall x | x in n.states :: r.states[x].incoming == n.states[x].incoming;
  }

  lemma RedirectArcsLang(n0: Nfa, n: Nfa, m: nat, l: Label, keep: nat)
    requires ArcsLang(n0, n) && m in n.states && ListLang(n0, l, [m], keep)
    ensures ArcsLang(n0, Redirect(n, m, l, keep))
  {
    var r := Redirect(n, m, l, keep);
    assert r.states[m].out == Put(n.states[m].out, l, keep);
    assert m in [m];
    forall x, k | x in n0.states && x in r.states && Lookup(r.states[x].out, k).Some?
      ensures Lookup(n0.states[x].out, k).Some?
      ensures Lang(n0, Lookup(r.states[x].out, k).value) == Lang(n0, Lookup(n0.states[x].out, k).value)
    {
      if x != m {
        assert r.states[x] == n.states[x];
      }
    }
  }

  lemma {:induction false} RedirectAllLang(n0: Nfa, n: Nfa, froms: seq<nat>, l: Label, keep: nat)
    requires Merging(n0, n) && Listed(n, l, froms) && keep in n.states && ListLang(n0, l, froms, keep)
    ensures Merging(n0, RedirectAll(n, froms, l, keep))
    decreases |froms|
  {
    if |froms| > 0 {
      var n1 := Redirect(n, froms[0], l, keep);
      assert forall m | m in froms[1..] :: m in froms;
      assert froms[0] in froms;
      RedirectLang(n0, n, froms[0], l, keep);
      FrameBetween(n0, n, n1);
      ListedFrame(n, n1, l, froms[1..]);
      RedirectAllLang(n0, n1, froms[1..], l, keep);
    }
  }

  /** Storing a list of predecessors of `x`'s language keeps the invariant. */
  lemma SetInListLang(n0: Nfa, n: Nfa, x: nat, l: Label, v: seq<nat>)
    requires Merging(n0, n) && Listed(n, l, v) && ListLang(n0, l, v, x)
    ensures Merging(n0, SetInList(n, x, l, v))
  {
    var r := SetInList(n, x, l, v);
    SetInListFrame(n, x, l, v);
    FrameTrans(n0, n, r);
    assert ArcsLang(n0, r);
    forall t, e | t in r.states && e in r.states[t].incoming ensures ListLang(n0, e.key, e.from, t) {
      if t == x {
        assert r.states[x].incoming == SetIn(n.states[x].incoming, l, v);
      } else {
        assert r.states[t] == n.states[t];
      }
    }
  }

  lemma DetachOneLang(n0: Nfa, n: Nfa, drop: nat, a: Arc)
    requires Merging(n0, n)
    ensures Merging(n0, DetachOne(n, drop, a))
  {
    if a.target in n.states && InList(n.states[a.target].incoming, a.key).Some? {
      var prev := InList(n.states[a.target].incoming, a.key).value;
      var v := RemoveFirst(prev, drop);
      RemoveFirstFacts(prev, drop);
      assert InEntry(a.key, prev) in n.states[a.target].incoming;
      assert Listed(n, a.key, prev) && ListLang(n0, a.key, prev, a.target);
      SetInListLang(n0, n, a.target, a.key, v);
    }
  }

  lemma {:induction false} DetachLang(n0: Nfa, n: Nfa, drop: nat, arcs: seq<Arc>)
    requires Merging(n0, n)
    ensures Merging(n0, Detach(n, drop, arcs))
    decreases |arcs|
  {
    if |arcs| > 0 {
      DetachOneLang(n0, n, drop, arcs[0]);
      DetachLang(n0, DetachOne(n, drop, arcs[0]), drop, arcs[1..]);
    }
  }

  /** A merge keeps the invariant: every arc redirected leads to a state of the same language. */
  lemma {:induction false} AttemptMergeLang(n0: Nfa, n: Nfa, keep: nat, drop: nat, fuel: nat)
    requires Merging(n0, n)
    ensures Merging(n0, AttemptMerge(n, keep, drop, fuel).0)
    decreases fuel, 0, 0
  {
    if keep != drop && Mergeable(n, keep, drop) && fuel > 0 {
      MergeableLang(n, keep, drop);
      LangKept(n0, n, keep);
      LangKept(n0, n, drop);
      MergeIntoLang(n0, n, keep, drop, fuel - 1);
    }
  }

  lemma MergeIntoLang(n0: Nfa, n: Nfa, keep: nat, drop: nat, fuel: nat)
    requires Merging(n0, n) && keep != drop && Mergeable(n, keep, drop) && Lang(n0, keep) == Lang(n0, drop)
    ensures Merging(n0, MergeInto(n, keep, drop, fuel))
    decreases fuel, 4, 1
  {
    var n1 := MergeEntries(n, keep, drop, InKeys(n.states[drop].incoming), fuel);
    MergeEntriesLang(n0, n, keep, drop, InKeys(n.states[drop].incoming), fuel);
    DetachLang(n0, n1, drop, if drop in n1.states then n1.states[drop].out else []);
  }

  lemma {:induction false} MergeEntriesLang(n0: Nfa, n: Nfa, keep: nat, drop: nat, keys: seq<Label>, fuel: nat)
    requires Merging(n0, n) && keep in n.states && Lang(n0, keep) == Lang(n0, drop)
    ensures Merging(n0, MergeEntries(n, keep, drop, keys, fuel))
    decreases fuel, 3, |keys|
  {
    if |keys| > 0 {
      var l := keys[0];
      var froms := InListOf(n, drop, l);
      InListOfListed(n, drop, l);
      InListOfLang(n0, n, drop, l);
      assert ListLang(n0, l, froms, keep);
      var n';
      if keep in n.states && InList(n.states[keep].incoming, l).Some? {
        n' := MergeFroms(n, keep, l, froms, fuel);
        MergeFromsLang(n0, n, keep, l, froms, fuel);
      } else {
        var n1 := SetInList(n, keep, l, froms);
        SetInListLang(n0, n, keep, l, froms);
        FrameBetween(n0, n, n1);
        ListedFrame(n, n1, l, froms);
        n' := RedirectAll(n1, froms, l, keep);
        RedirectAllLang(n0, n1, froms, l, keep);
      }
      MergeEntriesLang(n0, n', keep, drop, keys[1..], fuel);
    }
  }

  lemma {:induction false} MergeFromsLang(n0: Nfa, n: Nfa, keep: nat, l: Label, froms: seq<nat>, fuel: nat)
    requires Merging(n0, n) && Listed(n, l, froms) && keep in n.states && ListLang(n0, l, froms, keep)
    ensures Merging(n0, MergeFroms(n, keep, l, froms, fuel))
    decreases fuel, 2, |froms|
  {
    if |froms| > 0 {
      var m := froms[0];
      assert m in froms;
      assert forall y | y in froms[1..] :: y in froms;
      var n1 := Redirect(n, m, l, keep);
      RedirectLang(n0, n, m, l, keep);
      var tried := TryCandidates(n1, m, InListOf(n1, keep, l), fuel);
      TryCandidatesLang(n0, n1, m, InListOf(n1, keep, l), fuel);
      var n2;
      if tried.1 {
        n2 := tried.0;
      } else {
        FrameBetween(n0, n, tried.0);
        ListedFrame(n, tried.0, l, [m]);
        n2 := SetInList(tried.0, keep, l, InListOf(tried.0, keep, l) + [m]);
        AppendPredecessorLang(n0, tried.0, keep, l, m);
      }
      FrameBetween(n0, n, n2);
      ListedFrame(n, n2, l, froms[1..]);
      MergeFromsLang(n0, n2, keep, l, froms[1..], fuel);
    }
  }

  /** Adding a predecessor of keep's language at the end of keep's list keeps the invariant. */
  lemma AppendPredecessorLang(n0: Nfa, n: Nfa, keep: nat, l: Label, m: nat)
    requires Merging(n0, n) && Listed(n, l, [m]) && ListLang(n0, l, [m], keep)
    ensures Merging(n0, SetInList(n, keep, l, InListOf(n, keep, l) + [m]))
  {
    InListOfListed(n, keep, l);
    InListOfLang(n0, n, keep, l);
    SetInListLang(n0, n, keep, l, InListOf(n, keep, l) + [m]);
  }

  lemma {:induction false} TryCandidatesLang(n0: Nfa, n: Nfa, m: nat, cands: seq<nat>, fuel: nat)
    requires Merging(n0, n)
    ensures Merging(n0, TryCandidates(n, m, cands, fuel).0)
    decreases fuel, 1, |cands|
  {
    if |cands| > 0 {
      AttemptMergeLang(n0, n, cands[0], m, fuel);
      if !AttemptMerge(n, cands[0], m, fuel).1 {
        TryCandidatesLang(n0, n, m, cands[1..], fuel);
      }
    }
  }

  // -- mergeSuffixes ---------------------------------------------------------------------------------------------------

  /**
   mergeSuffixes: every leaf after the first is merged into the first. Each
   of these merges succeeds (the source asserts it): the leaves are final
   and have no arc when the NFA is built, and merging keeps every state's
   finality and out-labels. Every arc a merge redirects leads afterwards to a
   state with the language of its old target, so the NFA accepts what it
   accepted before.
   */
  method MergeSuffixes(nfa: Nfa, fuel: nat) returns (r: Nfa)
    requires fuel > 0 && Inv(nfa) && LeafsExact(nfa) && InListsOk(nfa) && InListsExact(nfa) && LeafsFinal(nfa)
    ensures Frame(nfa, r) && InListsOk(r) && ArenaOk(r)
    ensures forall w :: Accepts(r, w) <==> Accepts(nfa, w)
  {
    r := nfa;
    MergingStart(nfa);
    if |nfa.leafs| > 0 {
      var finalLeaf := nfa.leafs[0];
      assert finalLeaf in nfa.leafs;
      for i := 1 to |nfa.leafs|
        invariant Merging(nfa, r)
      {
        var leaf := nfa.leafs[i];
        assert leaf in nfa.leafs;
        var merged := AttemptMerge(r, finalLeaf, leaf, fuel);
        AttemptMergeLang(nfa, r, finalLeaf, leaf, fuel);
        LeafMergeable(nfa, r, finalLeaf, leaf);
        assert merged.1;
        r := merged.0;
      }
    }
    LangKept(nfa, r, Root);
    forall w ensures Accepts(r, w) <==> Accepts(nfa, w) {
      AcceptsRoot(r, w);
      AcceptsRoot(nfa, w);
    }
  }

  /** Two leaves of a built NFA remain mergeable while only merges have happened. */
  lemma LeafMergeable(nfa: Nfa, r: Nfa, a: nat, b: nat)
    requires LeafsExact(nfa) && LeafsFinal(nfa) && Frame(nfa, r)
    requires a in nfa.leafs && b in nfa.leafs
    ensures a == b || Mergeable(r, a, b)
  {
    if nfa.merge {
      EmptyOut(r.states[a].out);
      EmptyOut(r.states[b].out);
      assert OutLabels(nfa.states[a].out) == {} && OutLabels(nfa.states[b].out) == {};
    }
  }

  lemma EmptyOut(out: seq<Arc>)
    ensures OutLabels(out) == {} <==> |out| == 0
  {
    if |out| > 0 {
      assert out[0].key in OutLabels(out);
    }
  }
}
