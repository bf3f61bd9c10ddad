/**
 The serialised form of an output NFA (PathState.write) and the step of the
 search that reads it (incStepOnePassTree).

 A state written at position p occupies: a header (the number k of its arcs,
 negated when the state is final), k slots holding the position of each
 arc's (transition number, input item) pair, and then the arcs. Without
 suffix merging the target state follows its pair directly; with merging
 the pair is followed by the position of the target, which is written right
 there unless it was written before.
 */
module NfaWrite {
  import opened Basics
  import opened OutputNfa
  import opened Transducer
  import opened IncSteps

  function Header(isFinal: bool, k: nat): int
  {
    if isFinal then -(k as int) else k
  }

  // -- what a written list holds --------------------------------------------------------------------------------------

  /**
   Without merging: at p there is state s: its header, then one slot per arc
   pointing (forward, past the slots) at the arc's pair, behind which the
   arc's target follows, recursively.
   */
  ghost predicate EncodesAt(nfa: Nfa, buf: seq<int>, p: nat, s: nat)
    requires Inv(nfa) && s in nfa.states
    decreases nfa.next - s, 1
  {
    && p + |nfa.states[s].out| < |buf| && buf[p] == Header(nfa.states[s].isFinal, |nfa.states[s].out|)
    && forall i | 0 <= i < |nfa.states[s].out| ::
         && p + |nfa.states[s].out| < Slot(buf, p, i) && nfa.states[s].out[i] in nfa.states[s].out
         && ArcEncodedAt(nfa, buf, Slot(buf, p, i), s, nfa.states[s].out[i])
  }

  /** The slot of arc i of the state written at p: where the arc's pair is. */
  function Slot(buf: seq<int>, p: nat, i: nat): int
    requires p + 1 + i < |buf|
  {
    buf[p + 1 + i]
  }

  /** Without merging: at q the pair of arc `a` of state s, followed by its target. */
  ghost predicate ArcEncodedAt(nfa: Nfa, buf: seq<int>, q: int, s: nat, a: Arc)
    requires Inv(nfa) && s in nfa.states && a in nfa.states[s].out
    decreases nfa.next - a.target, 2
  {
    && 0 <= q && q + 1 < |buf| && buf[q] == a.key.trId && buf[q + 1] == a.key.item
    && EncodesAt(nfa, buf, q + 2, a.target)
  }

  /** With merging, the pair of arc `a` at q: its label, then the position at which its target was written. */
  predicate PairAt(buf: seq<int>, W: map<nat, nat>, q: int, a: Arc)
  {
    0 <= q && q + 2 < |buf| && buf[q] == a.key.trId && buf[q + 1] == a.key.item
    && a.target in W && buf[q + 2] == W[a.target]
  }

  /** With merging: state x is written at W[x]: its header, then one forward slot per arc pointing at the arc's pair. */
  predicate LayoutAt(nfa: Nfa, buf: seq<int>, W: map<nat, nat>, x: nat)
    requires x in nfa.states && x in W
  {
    && W[x] + |nfa.states[x].out| < |buf| && buf[W[x]] == Header(nfa.states[x].isFinal, |nfa.states[x].out|)
    && forall i | 0 <= i < |nfa.states[x].out| ::
         W[x] + |nfa.states[x].out| < Slot(buf, W[x], i) && PairAt(buf, W, Slot(buf, W[x], i), nfa.states[x].out[i])
  }

  /** `Wf` extends `W`: every recorded position is kept. */
  predicate Extends(W: map<nat, nat>, Wf: map<nat, nat>)
  {
    forall x | x in W :: x in Wf && Wf[x] == W[x]
  }

  /** `buf2` holds what `buf` holds from position lo on, and possibly more behind it. */
  predicate Agree(buf: seq<int>, buf2: seq<int>, lo: nat)
  {
    |buf| <= |buf2| && forall q | lo <= q < |buf| :: buf2[q] == buf[q]
  }

  lemma AgreeTrans(a: seq<int>, b: seq<int>, c: seq<int>, lo: nat)
    requires Agree(a, b, lo) && Agree(b, c, lo)
    ensures Agree(a, c, lo)
  {
  }

  lemma AgreeAbove(a: seq<int>, b: seq<int>, lo: nat, hi: nat)
    requires Agree(a, b, lo) && lo <= hi
    ensures Agree(a, b, hi)
  {
  }

  /** An encoding reads nothing before its own position, so later writes there and appends keep it. */
  lemma {:induction false} EncodesStable(nfa: Nfa, buf: seq<int>, buf2: seq<int>, p: nat, s: nat)
    requires Inv(nfa) && s in nfa.states && EncodesAt(nfa, buf, p, s) && Agree(buf, buf2, p)
    ensures EncodesAt(nfa, buf2, p, s)
    decreases nfa.next - s, 1
  {
    assert p + |nfa.states[s].out| < |buf2| && buf2[p] == buf[p];
    forall i | 0 <= i < |nfa.states[s].out|
      ensures && p + |nfa.states[s].out| < Slot(buf2, p, i) && nfa.states[s].out[i] in nfa.states[s].out
              && ArcEncodedAt(nfa, buf2, Slot(buf2, p, i), s, nfa.states[s].out[i])
    {
      SlotStable(nfa, buf, buf2, p, s, i);
    }
  }

  lemma {:induction false} SlotStable(nfa: Nfa, buf: seq<int>, buf2: seq<int>, p: nat, s: nat, i: nat)
    requires Inv(nfa) && s in nfa.states && EncodesAt(nfa, buf, p, s) && Agree(buf, buf2, p)
    requires i < |nfa.states[s].out|
    ensures p + 1 + i < |buf2|
    ensures && p + |nfa.states[s].out| < Slot(buf2, p, i) && nfa.states[s].out[i] in nfa.states[s].out
            && ArcEncodedAt(nfa, buf2, Slot(buf2, p, i), s, nfa.states[s].out[i])
    decreases nfa.next - s, 0
  {
    var q := buf[p + 1 + i];
    EncodedSlot(nfa, buf, p, s, i);
    assert buf2[p + 1 + i] == q;
    AgreeAbove(buf, buf2, p, q);
    ArcStable(nfa, buf, buf2, q, s, nfa.states[s].out[i]);
  }

  /** Slot i of an encoded state points past the slots at its arc's encoded pair. */
  lemma EncodedSlot(nfa: Nfa, buf: seq<int>, p: nat, s: nat, i: nat)
    requires Inv(nfa) && s in nfa.states && EncodesAt(nfa, buf, p, s) && i < |nfa.states[s].out|
    ensures p + 1 + i < |buf| && p + |nfa.states[s].out| < buf[p + 1 + i]
    ensures ArcEncodedAt(nfa, buf, buf[p + 1 + i], s, nfa.states[s].out[i])
  {
    assert ArcEncodedAt(nfa, buf, Slot(buf, p, i), s, nfa.states[s].out[i]);
  }

  lemma {:induction false} ArcStable(nfa: Nfa, buf: seq<int>, buf2: seq<int>, q: nat, s: nat, a: Arc)
    requires Inv(nfa) && s in nfa.states && a in nfa.states[s].out
    requires ArcEncodedAt(nfa, buf, q, s, a) && Agree(buf, buf2, q)
    ensures ArcEncodedAt(nfa, buf2, q, s, a)
    decreases nfa.next - a.target, 2
  {
    AgreeAbove(buf, buf2, q, q + 2);
    EncodesStable(nfa, buf, buf2, q + 2, a.target);
  }

  /** A layout reads nothing before its state's position, and recorded positions are never changed. */
  lemma LayoutStable(nfa: Nfa, buf: seq<int>, buf2: seq<int>, W: map<nat, nat>, W2: map<nat, nat>, x: nat)
    requires x in nfa.states && x in W && LayoutAt(nfa, buf, W, x) && Agree(buf, buf2, W[x]) && Extends(W, W2)
    ensures x in W2 && LayoutAt(nfa, buf2, W2, x)
  {
    var st := nfa.states[x];
    var p := W[x];
    forall i | 0 <= i < |st.out| ensures p + |st.out| < Slot(buf2, p, i) && PairAt(buf2, W2, Slot(buf2, p, i), st.out[i]) {
      var q := buf[p + 1 + i];
      assert PairAt(buf, W, q, st.out[i]);
      assert buf2[p + 1 + i] == q && buf2[q] == buf[q] && buf2[q + 1] == buf[q + 1] && buf2[q + 2] == buf[q + 2];
    }
  }

  // -- the writer ------------------------------------------------------------------------------------------------------

  /** What the writer may rely on: existing states, and arcs leading to larger ids when nothing was merged. */
  predicate WriterOk(nfa: Nfa, W: map<nat, nat>)
  {
    ArenaOk(nfa) && W.Keys <= nfa.states.Keys && (!nfa.merge ==> Inv(nfa))
  }

  /**
   The recursion measure: the states still to be written with merging; the
   states from s on without (arcs lead to larger ids).
   */
  function Pending(nfa: Nfa, s: nat, W: map<nat, nat>): set<nat>
  {
    if nfa.merge then nfa.states.Keys - W.Keys else set x | x in nfa.states && s <= x
  }

  /** Without merging, moving to a larger state id leaves fewer states to visit. */
  lemma PendingShrinks(nfa: Nfa, s: nat, t: nat, W: map<nat, nat>, W2: map<nat, nat>)
    requires !nfa.merge && s in nfa.states && s < t
    ensures Pending(nfa, t, W2) < Pending(nfa, s, W)
  {
    assert s in Pending(nfa, s, W) && s !in Pending(nfa, t, W2);
  }

  /** With merging, recording a position for an unwritten state leaves fewer states to write. */
  lemma PendingRecorded(nfa: Nfa, s: nat, t: nat, W: map<nat, nat>, W2: map<nat, nat>)
    requires nfa.merge && s in nfa.states && s !in W && s in W2 && Extends(W, W2)
    ensures Pending(nfa, t, W2) < Pending(nfa, s, W)
  {
    assert s in Pending(nfa, s, W) && s !in Pending(nfa, t, W2);
  }

  /** The slots of the first i arcs of s (written at p) are filled in and point at what they should. */
  ghost predicate SlotsDone(nfa: Nfa, buf: seq<int>, W: map<nat, nat>, s: nat, p: nat, i: nat)
    requires WriterOk(nfa, W) && s in nfa.states && i <= |nfa.states[s].out| && p + |nfa.states[s].out| < |buf|
  {
    forall j | 0 <= j < i :: SlotDone(nfa, buf, W, s, p, j)
  }

  /** Slot j of s points past the slots at arc j's pair, behind which its target follows (or its position, with merging). */
  ghost predicate SlotDone(nfa: Nfa, buf: seq<int>, W: map<nat, nat>, s: nat, p: nat, j: nat)
    requires WriterOk(nfa, W) && s in nfa.states && j < |nfa.states[s].out| && p + |nfa.states[s].out| < |buf|
  {
    var out := nfa.states[s].out;
    && p + |out| < buf[p + 1 + j]
    && if nfa.merge then PairAt(buf, W, buf[p + 1 + j], out[j])
       else out[j] in out && ArcEncodedAt(nfa, buf, buf[p + 1 + j], s, out[j])
  }

  /** With merging: every state first recorded since W0 is laid out, at a position from lo on. */
  predicate NewLaidOut(nfa: Nfa, buf: seq<int>, W: map<nat, nat>, W0: map<nat, nat>, lo: nat)
  {
    forall x | x in W && x !in W0 :: x in nfa.states && lo <= W[x] && LayoutAt(nfa, buf, W, x)
  }

  /**
   PathState.write of state s, appending to `buf` with the positions `W` of
   the states written so far (writtenAtPos): the header (arc count, negated
   for a final state) and one placeholder per arc; then, per arc, the
   placeholder is set to the current size and the pair is appended. Without
   merging the target follows. With merging the target's position follows:
   the recorded one if it was written before, otherwise the position right
   behind, where it is then written.

   Without merging the appended part encodes s; with merging every state
   written by this call is laid out at its recorded position, s at the old
   end of the list. Nothing before the old end changes.
   */
  method WriteState(nfa: Nfa, s: nat, buf: seq<int>, W: map<nat, nat>) returns (buf2: seq<int>, W2: map<nat, nat>)
    requires WriterOk(nfa, W) && s in nfa.states && (nfa.merge ==> s !in W)
    ensures WriterOk(nfa, W2) && Agree(buf, buf2, 0) && |buf2| > |buf| + |nfa.states[s].out|
    ensures !nfa.merge ==> EncodesAt(nfa, buf2, |buf|, s)
    ensures nfa.merge ==> && Extends(W, W2) && s in W2 && W2[s] == |buf|
                          && NewLaidOut(nfa, buf2, W2, W, |buf|)
    decreases Pending(nfa, s, W)
  {
    var out := nfa.states[s].out;
    var k := |out|;
    var p := |buf|;
    buf2 := buf + [Header(nfa.states[s].isFinal, k)] + seq(k, _ => 0);
    W2 := W[s := p];
    var i := 0;
    while i < k
      invariant 0 <= i <= k
      invariant WriterOk(nfa, W2) && p + k < |buf2| && Agree(buf, buf2, 0) && buf2[p] == Header(nfa.states[s].isFinal, k)
      invariant nfa.merge ==> Extends(W, W2) && s in W2 && W2[s] == p
      invariant SlotsDone(nfa, buf2, W2, s, p, i)
      invariant nfa.merge ==> NewLaidOut(nfa, buf2, W2, W[s := p], p + k + 1)
    {
      var a := out[i];
      assert a in out;
      var q := |buf2|;
      var b := buf2[p + 1 + i := q] + [a.key.trId, a.key.item];
      SlotWritten(nfa, buf, buf2, b, W2, s, p, i, q);
      if nfa.merge {
        if a.target in W2 {
          var b2 := b + [W2[a.target]];
          SeenAppended(nfa, buf, buf2, b, b2, W, W2, s, p, i, q);
          buf2 := b2;
        } else {
          var b1 := b + [q + 3];
          PendingRecorded(nfa, s, a.target, W, W2);
          var b2, W3 := WriteState(nfa, a.target, b1, W2);
          NewAppended(nfa, buf, buf2, b, b1, b2, W, W2, W3, s, p, i, q);
          buf2, W2 := b2, W3;
        }
      } else {
        PendingShrinks(nfa, s, a.target, W, W2);
        var b2, W3 := WriteState(nfa, a.target, b, W2);
        InlineAppended(nfa, buf, buf2, b, b2, W2, W3, s, p, i, q);
        buf2, W2 := b2, W3;
      }
      i := i + 1;
    }
    Finished(nfa, buf, buf2, W, W2, s, p);
  }

  /** Setting slot i and appending the pair keeps everything the loop has established. */
  lemma SlotWritten(nfa: Nfa, buf: seq<int>, buf2: seq<int>, b: seq<int>, W2: map<nat, nat>, s: nat, p: nat, i: nat, q: nat)
    requires WriterOk(nfa, W2) && s in nfa.states && i < |nfa.states[s].out| && p + |nfa.states[s].out| < |buf2| == q
    requires p == |buf| && Agree(buf, buf2, 0) && SlotsDone(nfa, buf2, W2, s, p, i)
    requires b == buf2[p + 1 + i := q] + [nfa.states[s].out[i].key.trId, nfa.states[s].out[i].key.item]
    ensures Agree(buf, b, 0) && Agree(buf2, b, p + |nfa.states[s].out| + 1) && |b| == q + 2 && b[p] == buf2[p]
    ensures b[p + 1 + i] == q && b[q] == nfa.states[s].out[i].key.trId && b[q + 1] == nfa.states[s].out[i].key.item
    ensures forall x | p < x <= p + i :: b[x] == buf2[x]
  {
  }

  lemma PairStable(buf: seq<int>, buf2: seq<int>, W: map<nat, nat>, W2: map<nat, nat>, q: nat, a: Arc)
    requires PairAt(buf, W, q, a) && Agree(buf, buf2, q) && Extends(W, W2)
    ensures PairAt(buf2, W2, q, a)
  {
    assert buf2[q] == buf[q] && buf2[q + 1] == buf[q + 1] && buf2[q + 2] == buf[q + 2];
  }

  /** Without merging, arc i's target written behind its pair completes slot i. */
  lemma InlineAppended(nfa: Nfa, buf: seq<int>, buf2: seq<int>, b: seq<int>, b2: seq<int>, W2: map<nat, nat>, W3: map<nat, nat>,
                       s: nat, p: nat, i: nat, q: nat)
    requires WriterOk(nfa, W2) && WriterOk(nfa, W3) && !nfa.merge && s in nfa.states && i < |nfa.states[s].out|
    requires p + |nfa.states[s].out| < |buf2| == q && SlotsDone(nfa, buf2, W2, s, p, i)
    requires Agree(buf, b, 0) && Agree(buf2, b, p + |nfa.states[s].out| + 1) && |b| == q + 2 && b[p] == buf2[p]
    requires b[p + 1 + i] == q && b[q] == nfa.states[s].out[i].key.trId && b[q + 1] == nfa.states[s].out[i].key.item
    requires forall x | p < x <= p + i :: b[x] == buf2[x]
    requires nfa.states[s].out[i] in nfa.states[s].out
    requires Agree(b, b2, 0) && EncodesAt(nfa, b2, q + 2, nfa.states[s].out[i].target)
    ensures Agree(buf, b2, 0) && p + |nfa.states[s].out| < |b2| && b2[p] == buf2[p]
    ensures SlotsDone(nfa, b2, W3, s, p, i + 1)
  {
    var out := nfa.states[s].out;
    var k := |out|;
    AgreeTrans(buf, b, b2, 0);
    AgreeAbove(b, b2, 0, k + p + 1);
    AgreeTrans(buf2, b, b2, p + k + 1);
    forall j | 0 <= j < i + 1 ensures SlotDone(nfa, b2, W3, s, p, j) {
      assert b2[p + 1 + j] == b[p + 1 + j];
      if j < i {
        assert SlotDone(nfa, buf2, W2, s, p, j);
        var qj := buf2[p + 1 + j];
        assert b[p + 1 + j] == qj;
        AgreeAbove(buf2, b2, p + k + 1, qj);
        ArcStable(nfa, buf2, b2, qj, s, out[j]);
      } else {
        assert b2[q] == b[q] && b2[q + 1] == b[q + 1];
        assert ArcEncodedAt(nfa, b2, q, s, out[i]);
      }
    }
  }

  /** With merging, an arc to a state written before: slot i is complete and nothing laid out moves. */
  lemma SeenAppended(nfa: Nfa, buf: seq<int>, buf2: seq<int>, b: seq<int>, b2: seq<int>, W: map<nat, nat>, W2: map<nat, nat>,
                     s: nat, p: nat, i: nat, q: nat)
    requires WriterOk(nfa, W2) && nfa.merge && s in nfa.states && i < |nfa.states[s].out|
    requires p + |nfa.states[s].out| < |buf2| == q && SlotsDone(nfa, buf2, W2, s, p, i)
    requires NewLaidOut(nfa, buf2, W2, W[s := p], p + |nfa.states[s].out| + 1)
    requires Agree(buf, b, 0) && Agree(buf2, b, p + |nfa.states[s].out| + 1) && |b| == q + 2 && b[p] == buf2[p]
    requires b[p + 1 + i] == q && b[q] == nfa.states[s].out[i].key.trId && b[q + 1] == nfa.states[s].out[i].key.item
    requires forall x | p < x <= p + i :: b[x] == buf2[x]
    requires nfa.states[s].out[i].target in W2 && b2 == b + [W2[nfa.states[s].out[i].target]]
    ensures Agree(buf, b2, 0) && p + |nfa.states[s].out| < |b2| && b2[p] == buf2[p]
    ensures SlotsDone(nfa, b2, W2, s, p, i + 1)
    ensures NewLaidOut(nfa, b2, W2, W[s := p], p + |nfa.states[s].out| + 1)
  {
    var out := nfa.states[s].out;
    var k := |out|;
    assert Agree(b, b2, 0);
    AgreeTrans(buf, b, b2, 0);
    AgreeTrans(buf2, b, b2, p + k + 1);
    forall j | 0 <= j < i + 1 ensures SlotDone(nfa, b2, W2, s, p, j) {
      assert b2[p + 1 + j] == b[p + 1 + j];
      if j < i {
        assert SlotDone(nfa, buf2, W2, s, p, j);
        var qj := buf2[p + 1 + j];
        assert b[p + 1 + j] == qj;
        AgreeAbove(buf2, b2, p + k + 1, qj);
        PairStable(buf2, b2, W2, W2, qj, out[j]);
      } else {
        assert b2[q] == b[q] && b2[q + 1] == b[q + 1];
      }
    }
    forall x | x in W2 && x !in W[s := p] ensures x in nfa.states && p + k + 1 <= W2[x] && LayoutAt(nfa, b2, W2, x) {
      AgreeAbove(buf2, b2, p + k + 1, W2[x]);
      LayoutStable(nfa, buf2, b2, W2, W2, x);
    }
  }

  /** With merging, an arc to a state written right behind its pair: the states that call wrote join those laid out. */
  lemma NewAppended(nfa: Nfa, buf: seq<int>, buf2: seq<int>, b: seq<int>, b1: seq<int>, b2: seq<int>,
                    W: map<nat, nat>, W2: map<nat, nat>, W3: map<nat, nat>, s: nat, p: nat, i: nat, q: nat)
    requires WriterOk(nfa, W2) && nfa.merge && s in nfa.states && i < |nfa.states[s].out|
    requires p + |nfa.states[s].out| < |buf2| == q && SlotsDone(nfa, buf2, W2, s, p, i)
    requires Extends(W, W2) && s in W2 && W2[s] == p
    requires NewLaidOut(nfa, buf2, W2, W[s := p], p + |nfa.states[s].out| + 1)
    requires Agree(buf, b, 0) && Agree(buf2, b, p + |nfa.states[s].out| + 1) && |b| == q + 2 && b[p] == buf2[p]
    requires b[p + 1 + i] == q && b[q] == nfa.states[s].out[i].key.trId && b[q + 1] == nfa.states[s].out[i].key.item
    requires forall x | p < x <= p + i :: b[x] == buf2[x]
    requires b1 == b + [q + 3]
    requires WriterOk(nfa, W3) && Agree(b1, b2, 0) && Extends(W2, W3)
    requires nfa.states[s].out[i].target in W3 && W3[nfa.states[s].out[i].target] == q + 3
    requires NewLaidOut(nfa, b2, W3, W2, q + 3)
    ensures Agree(buf, b2, 0) && p + |nfa.states[s].out| < |b2| && b2[p] == buf2[p]
    ensures Extends(W, W3) && s in W3 && W3[s] == p
    ensures SlotsDone(nfa, b2, W3, s, p, i + 1)
    ensures NewLaidOut(nfa, b2, W3, W[s := p], p + |nfa.states[s].out| + 1)
  {
    var out := nfa.states[s].out;
    var k := |out|;
    assert Agree(b, b1, 0);
    AgreeTrans(b, b1, b2, 0);
    AgreeTrans(buf, b, b2, 0);
    AgreeAbove(b, b2, 0, p + k + 1);
    AgreeTrans(buf2, b, b2, p + k + 1);
    forall j | 0 <= j < i + 1 ensures SlotDone(nfa, b2, W3, s, p, j) {
      assert b2[p + 1 + j] == b[p + 1 + j];
      if j < i {
        assert SlotDone(nfa, buf2, W2, s, p, j);
        var qj := buf2[p + 1 + j];
        assert b[p + 1 + j] == qj;
        AgreeAbove(buf2, b2, p + k + 1, qj);
        PairStable(buf2, b2, W2, W3, qj, out[j]);
      } else {
        assert b2[q] == b[q] && b2[q + 1] == b[q + 1] && b2[q + 2] == b1[q + 2];
      }
    }
    forall x | x in W3 && x !in W[s := p] ensures x in nfa.states && p + k + 1 <= W3[x] && LayoutAt(nfa, b2, W3, x) {
      if x in W2 {
        AgreeAbove(buf2, b2, p + k + 1, W2[x]);
        LayoutStable(nfa, buf2, b2, W2, W3, x);
      }
    }
  }

  /** Once every slot is filled, the state itself is complete. */
  lemma Finished(nfa: Nfa, buf: seq<int>, buf2: seq<int>, W: map<nat, nat>, W2: map<nat, nat>, s: nat, p: nat)
    requires WriterOk(nfa, W2) && s in nfa.states && p == |buf| && p + |nfa.states[s].out| < |buf2|
    requires buf2[p] == Header(nfa.states[s].isFinal, |nfa.states[s].out|)
    requires SlotsDone(nfa, buf2, W2, s, p, |nfa.states[s].out|)
    requires nfa.merge ==> Extends(W, W2) && s in W2 && W2[s] == p
    requires nfa.merge ==> NewLaidOut(nfa, buf2, W2, W[s := p], p + |nfa.states[s].out| + 1)
    ensures !nfa.merge ==> EncodesAt(nfa, buf2, p, s)
    ensures nfa.merge ==> NewLaidOut(nfa, buf2, W2, W, p)
  {
    if nfa.merge {
      FinishedMerged(nfa, buf2, W2, s, p);
    } else {
      FinishedPlain(nfa, buf2, W2, s, p);
    }
  }

  lemma FinishedMerged(nfa: Nfa, buf2: seq<int>, W2: map<nat, nat>, s: nat, p: nat)
    requires WriterOk(nfa, W2) && nfa.merge && s in nfa.states && p + |nfa.states[s].out| < |buf2|
    requires buf2[p] == Header(nfa.states[s].isFinal, |nfa.states[s].out|)
    requires SlotsDone(nfa, buf2, W2, s, p, |nfa.states[s].out|)
    requires s in W2 && W2[s] == p
    ensures LayoutAt(nfa, buf2, W2, s)
  {
    var k := |nfa.states[s].out|;
    forall j | 0 <= j < k
      ensures W2[s] + k < Slot(buf2, W2[s], j) && PairAt(buf2, W2, Slot(buf2, W2[s], j), nfa.states[s].out[j])
    {
      assert SlotDone(nfa, buf2, W2, s, p, j);
    }
  }

  lemma FinishedPlain(nfa: Nfa, buf2: seq<int>, W2: map<nat, nat>, s: nat, p: nat)
    requires WriterOk(nfa, W2) && !nfa.merge && s in nfa.states && p + |nfa.states[s].out| < |buf2|
    requires buf2[p] == Header(nfa.states[s].isFinal, |nfa.states[s].out|)
    requires SlotsDone(nfa, buf2, W2, s, p, |nfa.states[s].out|)
    ensures EncodesAt(nfa, buf2, p, s)
  {
    var out := nfa.states[s].out;
    var k := |out|;
    forall j | 0 <= j < k ensures p + k < Slot(buf2, p, j) && out[j] in out && ArcEncodedAt(nfa, buf2, Slot(buf2, p, j), s, out[j]) {
      assert SlotDone(nfa, buf2, W2, s, p, j);
    }
  }

  /** OutputNFA.write: the root written into an empty list. */
  method Write(nfa: Nfa) returns (buf: seq<int>, W: map<nat, nat>)
    requires ArenaOk(nfa) && (!nfa.merge ==> Inv(nfa))
    ensures !nfa.merge ==> EncodesAt(nfa, buf, 0, Root)
    ensures nfa.merge ==> && Root in W && W[Root] == 0
                          && forall x | x in W :: x in nfa.states && LayoutAt(nfa, buf, W, x)
  {
    buf, W := WriteState(nfa, Root, [], map[]);
  }

  // -- the reader ------------------------------------------------------------------------------------------------------

  /** The number of arcs a header announces. */
  function ArcCount(h: int): nat
  {
    if h < 0 then -h else h
  }

  /** The positions the reader touches at `pos` lie inside the list. */
  predicate Readable(buf: seq<int>, pos: nat, merge: bool)
  {
    && pos < |buf| && pos + ArcCount(buf[pos]) < |buf|
    && forall j | pos < j <= pos + ArcCount(buf[pos]) ::
         0 <= buf[j] && buf[j] + (if merge then 2 else 1) < |buf| && (merge ==> buf[buf[j] + 2] >= 0)
  }

  /** Where the reader continues after the pair of slot i of the state at pos. */
  function Continuation(buf: seq<int>, pos: nat, merge: bool, i: nat): nat
    requires Readable(buf, pos, merge) && i < ArcCount(buf[pos])
  {
    var readPos := buf[pos + 1 + i];
    if merge then buf[readPos + 2] else readPos + 2
  }

  /**
   incStepOnePassTree: a header of 0 reaches a final state; otherwise every
   arc's pair is read and its admitted output items expanded, continuing
   behind the pair (or at the stored position, with merging). A negative
   header reports a final state.
   */
  function StepTree(fst: Fst, pivotItem: int, buf: seq<int>, pos: nat, merge: bool): StepResult
    requires Readable(buf, pos, merge)
  {
    var h := buf[pos];
    if h == 0 then StepResult(true, [])
    else StepResult(h < 0, ReadArcs(fst, pivotItem, buf, pos, merge, 0))
  }

  function ReadArcs(fst: Fst, pivotItem: int, buf: seq<int>, pos: nat, merge: bool, i: nat): seq<Move>
    requires Readable(buf, pos, merge) && i <= ArcCount(buf[pos])
    decreases ArcCount(buf[pos]) - i
  {
    if i == ArcCount(buf[pos]) then []
    else
      var readPos := buf[pos + 1 + i];
      var trNo := buf[readPos];
      var item := buf[readPos + 1];
      AdmittedMoves(OutputItems(fst, trNo, fst.kindOf(trNo), item), pivotItem, 0, Continuation(buf, pos, merge, i))
        + ReadArcs(fst, pivotItem, buf, pos, merge, i + 1)
  }

  /** What a step should report for a state with arcs `out`, arc j continuing at conts[j]. */
  function ArcMoves(fst: Fst, pivotItem: int, out: seq<Arc>, conts: seq<nat>, i: nat): seq<Move>
    requires |conts| == |out| && i <= |out|
    decreases |out| - i
  {
    if i == |out| then []
    else
      var l := out[i].key;
      AdmittedMoves(OutputItems(fst, l.trId, fst.kindOf(l.trId), l.item), pivotItem, 0, conts[i])
        + ArcMoves(fst, pivotItem, out, conts, i + 1)
  }

  /** The continuations of all slots of the state at pos. */
  function Continuations(buf: seq<int>, pos: nat, merge: bool): (r: seq<nat>)
    requires Readable(buf, pos, merge)
    ensures |r| == ArcCount(buf[pos])
  {
    seq(ArcCount(buf[pos]), i requires 0 <= i < ArcCount(buf[pos]) && Readable(buf, pos, merge) => Continuation(buf, pos, merge, i))
  }

  lemma {:induction false} ReadArcsAgree(fst: Fst, pivotItem: int, buf: seq<int>, pos: nat, merge: bool, i: nat, out: seq<Arc>)
    requires Readable(buf, pos, merge) && |out| == ArcCount(buf[pos]) && i <= |out|
    requires forall j | i <= j < |out| :: buf[buf[pos + 1 + j]] == out[j].key.trId && buf[buf[pos + 1 + j] + 1] == out[j].key.item
    ensures ReadArcs(fst, pivotItem, buf, pos, merge, i) == ArcMoves(fst, pivotItem, out, Continuations(buf, pos, merge), i)
    decreases |out| - i
  {
    if i < |out| {
      assert pos < pos + 1 + i <= pos + ArcCount(buf[pos]);
      ReadArcsAgree(fst, pivotItem, buf, pos, merge, i + 1, out);
    }
  }

  /** The header tells the reader the arc count and whether to report a final state. */
  lemma HeaderRead(isFinal: bool, k: nat)
    ensures ArcCount(Header(isFinal, k)) == k
    ensures (Header(isFinal, k) == 0 || Header(isFinal, k) < 0) <==> isFinal || k == 0
  {
  }

  /**
   Round trip without merging: at a position encoding state s the reader
   reports a final state exactly when s is final or has no arc, and reads
   each arc of s, in order, continuing at a position that encodes the arc's
   target.
   */
  lemma StepTreeReadsState(fst: Fst, pivotItem: int, nfa: Nfa, buf: seq<int>, p: nat, s: nat)
    requires Inv(nfa) && s in nfa.states && EncodesAt(nfa, buf, p, s)
    ensures Readable(buf, p, false)
    ensures var st := nfa.states[s];
            var conts := Continuations(buf, p, false);
            && |conts| == |st.out|
            && (forall j | 0 <= j < |st.out| :: st.out[j] in st.out && EncodesAt(nfa, buf, conts[j], st.out[j].target))
            && StepTree(fst, pivotItem, buf, p, false)
               == StepResult(st.isFinal || |st.out| == 0, ArcMoves(fst, pivotItem, st.out, conts, 0))
  {
    var st := nfa.states[s];
    var k := |st.out|;
    HeaderRead(st.isFinal, k);
    forall j | p < j <= p + k ensures 0 <= buf[j] && buf[j] + 1 < |buf| {
      var i := j - p - 1;
      assert st.out[i] in st.out && ArcEncodedAt(nfa, buf, buf[p + 1 + i], s, st.out[i]);
    }
    assert Readable(buf, p, false);
    forall j | 0 <= j < k ensures st.out[j] in st.out && EncodesAt(nfa, buf, Continuations(buf, p, false)[j], st.out[j].target) {
      assert ArcEncodedAt(nfa, buf, buf[p + 1 + j], s, st.out[j]);
    }
    ReadArcsAgree(fst, pivotItem, buf, p, false, 0, st.out);
  }

  /**
   Round trip with merging: at the position where state s was written the
   reader reports a final state exactly when s is final or has no arc, and
   reads each arc of s, in order, continuing at the position where the
   arc's target was written.
   */
  lemma StepTreeReadsMerged(fst: Fst, pivotItem: int, nfa: Nfa, buf: seq<int>, W: map<nat, nat>, s: nat)
    requires s in nfa.states && s in W && LayoutAt(nfa, buf, W, s)
    ensures Readable(buf, W[s], true)
    ensures var st := nfa.states[s];
            var conts := Continuations(buf, W[s], true);
            && |conts| == |st.out|
            && (forall j | 0 <= j < |st.out| :: st.out[j].target in W && conts[j] == W[st.out[j].target])
            && StepTree(fst, pivotItem, buf, W[s], true)
               == StepResult(st.isFinal || |st.out| == 0, ArcMoves(fst, pivotItem, st.out, conts, 0))
  {
    var st := nfa.states[s];
    var k := |st.out|;
    var p := W[s];
    HeaderRead(st.isFinal, k);
    forall j | p < j <= p + k ensures 0 <= buf[j] && buf[j] + 2 < |buf| && buf[buf[j] + 2] >= 0 {
      var i := j - p - 1;
      assert PairAt(buf, W, buf[p + 1 + i], st.out[i]);
    }
    assert Readable(buf, p, true);
    ReadArcsAgree(fst, pivotItem, buf, p, true, 0, st.out);
  }
}
