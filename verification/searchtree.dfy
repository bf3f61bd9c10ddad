/**
 The children of a search-tree node and their projected databases. A child
 stands for the current prefix extended by one output item; its posting list
 holds, per input sequence (in increasing input id order), the snapshots
 (state, pos) at which runs producing that prefix continue. The prefix
 support is the summed weight of the inputs with a posting.
 */
module SearchTree {
  import opened Basics
  import opened IncSteps

  datatype Snap = Snap(state: nat, pos: nat)

  datatype Posting = Posting(inputId: nat, snaps: seq<Snap>)

  datatype Child = Child(item: int, prefixSupport: nat, postings: seq<Posting>)

  function SnapSet(snaps: seq<Snap>): set<Snap>
  {
    set q | q in snaps
  }

  /** The input ids that have a posting. */
  function Ids(postings: seq<Posting>): set<nat>
  {
    set j | 0 <= j < |postings| :: postings[j].inputId
  }

  predicate DistinctItems(children: seq<Child>)
  {
    forall a, b | 0 <= a < b < |children| :: children[a].item != children[b].item
  }

  predicate HasChild(children: seq<Child>, item: int)
  {
    exists k | 0 <= k < |children| :: children[k].item == item
  }

  /** Every posting in the children is for an input before `id`. */
  predicate IdsBelow(children: seq<Child>, id: nat)
  {
    forall k, j | 0 <= k < |children| && 0 <= j < |children[k].postings| :: children[k].postings[j].inputId < id
  }

  function IndexOf(children: seq<Child>, item: int): (r: Option<nat>)
    ensures r.None? <==> !HasChild(children, item)
    ensures r.Some? ==> r.value < |children| && children[r.value].item == item
  {
    if |children| == 0 then None
    else if children[|children| - 1].item == item then Some(|children| - 1)
    else
      var r := IndexOf(children[..|children| - 1], item);
      assert forall k | 0 <= k < |children| - 1 :: children[..|children| - 1][k] == children[k];
      r
  }

  /**
   expandWithItemTraditional: records snapshot `snap` of input `inputId` in
   the child for `item`, creating the child if it is new. A snapshot already
   recorded for the input is not recorded twice, and the input's weight is
   added to the prefix support only with its first snapshot.
   */
  function ExpandWithItem(children: seq<Child>, item: int, inputId: nat, weight: nat, snap: Snap): (r: seq<Child>)
    ensures HasChild(r, item)
    ensures |r| == |children| + (if HasChild(children, item) then 0 else 1)
    ensures forall k | 0 <= k < |children| :: r[k].item == children[k].item
    ensures forall k | 0 <= k < |children| && children[k].item != item :: r[k] == children[k]
  {
    match IndexOf(children, item)
    case None =>
      var r := children + [Child(item, weight, [Posting(inputId, [snap])])];
      assert r[|children|].item == item;
      r
    case Some(k) =>
      var c := children[k];
      var n := |c.postings|;
      if n > 0 && c.postings[n - 1].inputId == inputId then
        var last := c.postings[n - 1];
        if snap in last.snaps then children
        else
          var r := children[k := c.(postings := c.postings[n - 1 := last.(snaps := last.snaps + [snap])])];
          assert r[k].item == item;
          r
      else
        var r := children[k := Child(item, c.prefixSupport + weight, c.postings + [Posting(inputId, [snap])])];
        assert r[k].item == item;
        r
  }

  // -- adding the moves of one input -----------------------------------------------------------------------------------

  predicate HasItem(moves: seq<Move>, item: int)
  {
    exists m | m in moves :: m.item == item
  }

  /** The snapshots the moves for `item` continue at. */
  function SnapsOf(moves: seq<Move>, item: int): set<Snap>
  {
    set m | m in moves && m.item == item :: Snap(m.state, m.pos)
  }

  /**
   `after` is child `before` once the moves of input `id` (weight `w`) with
   at least one move for its item are added: one more posting, for `id`,
   holding exactly the snapshots of those moves, and the weight added.
   */
  predicate Added(before: Child, after: Child, id: nat, w: nat, moves: seq<Move>)
  {
    && after.item == before.item
    && HasItem(moves, after.item)
    && |after.postings| == |before.postings| + 1
    && after.postings[..|before.postings|] == before.postings
    && after.prefixSupport == before.prefixSupport + w
    && after.postings[|before.postings|].inputId == id
    && SnapSet(after.postings[|before.postings|].snaps) == SnapsOf(moves, after.item)
  }

  /**
   What adding the moves of input `id` does to the children: a child whose
   item some move has gets one posting for `id`, any other is unchanged,
   and a new child is appended for each new item.
   */
  predicate AddedAll(before: seq<Child>, after: seq<Child>, id: nat, w: nat, moves: seq<Move>)
  {
    && |before| <= |after|
    && DistinctItems(after)
    && (forall k | 0 <= k < |before| ::
          if HasItem(moves, before[k].item) then Added(before[k], after[k], id, w, moves) else after[k] == before[k])
    && (forall k | |before| <= k < |after| :: Added(Child(after[k].item, 0, []), after[k], id, w, moves))
    && (forall m | m in moves :: HasChild(after, m.item))
  }

  /**
   The node loop over the moves of one input: expandWithItemTraditional for
   each move in order.
   */
  method AddMoves(children: seq<Child>, id: nat, w: nat, moves: seq<Move>) returns (r: seq<Child>)
    requires DistinctItems(children) && IdsBelow(children, id)
    ensures AddedAll(children, r, id, w, moves)
  {
    r := children;
    var j := 0;
    while j < |moves|
      invariant 0 <= j <= |moves|
      invariant AddedAll(children, r, id, w, moves[..j])
    {
      var m := moves[j];
      AddOne(children, r, id, w, moves, j);
      r := ExpandWithItem(r, m.item, id, w, Snap(m.state, m.pos));
      j := j + 1;
    }
    assert moves[..j] == moves;
  }

  lemma SnapsOfSnoc(moves: seq<Move>, j: nat, item: int)
    requires j < |moves|
    ensures SnapsOf(moves[..j + 1], item)
            == SnapsOf(moves[..j], item) + (if moves[j].item == item then {Snap(moves[j].state, moves[j].pos)} else {})
    ensures HasItem(moves[..j + 1], item) <==> HasItem(moves[..j], item) || moves[j].item == item
  {
    assert moves[..j + 1] == moves[..j] + [moves[j]];
  }

  lemma HasItemSnaps(moves: seq<Move>, item: int)
    ensures HasItem(moves, item) <==> SnapsOf(moves, item) != {}
  {
    if HasItem(moves, item) {
      var m :| m in moves && m.item == item;
      assert Snap(m.state, m.pos) in SnapsOf(moves, item);
    }
  }

  /** Added depends on the moves only through the item's presence and snapshots. */
  lemma AddedSameItem(b: Child, a: Child, id: nat, w: nat, pre: seq<Move>, post: seq<Move>)
    requires Added(b, a, id, w, pre)
    requires HasItem(post, a.item) == HasItem(pre, a.item) && SnapsOf(post, a.item) == SnapsOf(pre, a.item)
    ensures Added(b, a, id, w, post)
  {
  }

  /** One step of AddMoves keeps AddedAll. */
  lemma AddOne(before: seq<Child>, cur: seq<Child>, id: nat, w: nat, moves: seq<Move>, j: nat)
    requires DistinctItems(before) && IdsBelow(before, id) && j < |moves|
    requires AddedAll(before, cur, id, w, moves[..j])
    ensures AddedAll(before, ExpandWithItem(cur, moves[j].item, id, w, Snap(moves[j].state, moves[j].pos)), id, w, moves[..j + 1])
  {
    var m := moves[j];
    var q := Snap(m.state, m.pos);
    var o := m.item;
    var r := ExpandWithItem(cur, o, id, w, q);
    var pre := moves[..j];
    var post := moves[..j + 1];
    assert post == pre + [m];
    AddOneOthers(before, cur, id, w, moves, j);
    match IndexOf(cur, o)
    case None =>
      AddNew(before, cur, id, w, pre, post, m);
    case Some(k) =>
      if HasItem(pre, o) {
        AddSeen(before, cur, id, w, pre, post, m, k);
      } else {
        AddFirst(before, cur, id, w, pre, post, m, k);
      }
  }

  /** One step of AddMoves leaves the children for the other items as AddedAll wants them. */
  lemma AddOneOthers(before: seq<Child>, cur: seq<Child>, id: nat, w: nat, moves: seq<Move>, j: nat)
    requires j < |moves| && AddedAll(before, cur, id, w, moves[..j])
    ensures var r := ExpandWithItem(cur, moves[j].item, id, w, Snap(moves[j].state, moves[j].pos));
      && (forall k | 0 <= k < |r| && r[k].item != moves[j].item ::
            if k < |before| then (if HasItem(moves[..j + 1], before[k].item) then Added(before[k], r[k], id, w, moves[..j + 1]) else r[k] == before[k])
            else Added(Child(r[k].item, 0, []), r[k], id, w, moves[..j + 1]))
      && (forall m2 | m2 in moves[..j + 1] && m2.item != moves[j].item :: HasChild(r, m2.item))
  {
    var m := moves[j];
    var q := Snap(m.state, m.pos);
    var o := m.item;
    var r := ExpandWithItem(cur, o, id, w, q);
    var pre := moves[..j];
    var post := moves[..j + 1];
    assert post == pre + [m];
    forall x | x != o ensures SnapsOf(post, x) == SnapsOf(pre, x) && (HasItem(post, x) <==> HasItem(pre, x)) {
      SnapsOfSnoc(moves, j, x);
    }
    SnapsOfSnoc(moves, j, o);
    forall k | 0 <= k < |r| && r[k].item != o
      ensures if k < |before| then (if HasItem(post, before[k].item) then Added(before[k], r[k], id, w, post) else r[k] == before[k])
              else Added(Child(r[k].item, 0, []), r[k], id, w, post)
    {
      assert k < |cur| && r[k] == cur[k];
      if k < |before| {
        assert before[k].item == cur[k].item;
        if HasItem(post, before[k].item) {
          AddedSameItem(before[k], r[k], id, w, pre, post);
        }
      } else {
        AddedSameItem(Child(r[k].item, 0, []), r[k], id, w, pre, post);
      }
    }
    forall m2 | m2 in post && m2.item != o ensures HasChild(r, m2.item) {
      assert m2 in pre;
      var k :| 0 <= k < |cur| && cur[k].item == m2.item;
      assert r[k].item == m2.item;
    }
  }

  /** A move for an item no child has yet: a new child with one posting. */
  lemma AddNew(before: seq<Child>, cur: seq<Child>, id: nat, w: nat, pre: seq<Move>, post: seq<Move>, m: Move)
    requires DistinctItems(before) && post == pre + [m]
    requires AddedAll(before, cur, id, w, pre) && !HasChild(cur, m.item)
    requires SnapsOf(post, m.item) == SnapsOf(pre, m.item) + {Snap(m.state, m.pos)} && HasItem(post, m.item)
    requires forall k | 0 <= k < |before| && HasItem(post, before[k].item) && before[k].item != m.item :: Added(before[k], cur[k], id, w, post)
    requires forall k | |before| <= k < |cur| :: Added(Child(cur[k].item, 0, []), cur[k], id, w, post)
    requires forall m2 | m2 in post && m2.item != m.item :: HasChild(cur, m2.item)
    ensures AddedAll(before, ExpandWithItem(cur, m.item, id, w, Snap(m.state, m.pos)), id, w, post)
  {
    var o := m.item;
    var q := Snap(m.state, m.pos);
    var r := ExpandWithItem(cur, o, id, w, q);
    assert r == cur + [Child(o, w, [Posting(id, [q])])];
    assert !HasItem(pre, o);
    HasItemSnaps(pre, o);
    assert SnapSet([q]) == {q};
    forall k | 0 <= k < |before| ensures before[k].item != o {
      assert cur[k].item == before[k].item;
    }
    assert Added(Child(o, 0, []), r[|cur|], id, w, post);
    assert HasChild(r, o) by { assert r[|cur|].item == o; }
    forall m2 | m2 in post ensures HasChild(r, m2.item) {
      if m2.item != o {
        var k :| 0 <= k < |cur| && cur[k].item == m2.item;
        assert r[k].item == m2.item;
      }
    }
  }

  /** Another move for an item this input already moved to: one more snapshot in the same posting. */
  lemma AddSeen(before: seq<Child>, cur: seq<Child>, id: nat, w: nat, pre: seq<Move>, post: seq<Move>, m: Move, k: nat)
    requires AddedAll(before, cur, id, w, pre) && k < |cur| && cur[k].item == m.item && HasItem(pre, m.item)
    requires SnapsOf(post, m.item) == SnapsOf(pre, m.item) + {Snap(m.state, m.pos)} && HasItem(post, m.item)
    requires forall k2 | 0 <= k2 < |cur| && k2 != k :: cur[k2].item != m.item
    ensures var r := ExpandWithItem(cur, m.item, id, w, Snap(m.state, m.pos));
      && |r| == |cur| && (forall k2 | 0 <= k2 < |r| && k2 != k :: r[k2] == cur[k2])
      && r[k].item == m.item
      && (if k < |before| then Added(before[k], r[k], id, w, post) else Added(Child(m.item, 0, []), r[k], id, w, post))
  {
    var o := m.item;
    var q := Snap(m.state, m.pos);
    var c := cur[k];
    var n := |c.postings|;
    var base := if k < |before| then before[k] else Child(o, 0, []);
    assert Added(base, c, id, w, pre);
    assert n > 0 && c.postings[n - 1].inputId == id;
    var last := c.postings[n - 1];
    assert SnapSet(last.snaps) == SnapsOf(pre, o);
    var r := ExpandWithItem(cur, o, id, w, q);
    if q !in last.snaps {
      var last2 := last.(snaps := last.snaps + [q]);
      assert SnapSet(last2.snaps) == SnapSet(last.snaps) + {q};
      assert r[k] == c.(postings := c.postings[n - 1 := last2]);
      assert r[k].postings[..n - 1] == c.postings[..n - 1];
    }
  }

  /** The first move of this input for an existing child: a new posting and the weight added. */
  lemma AddFirst(before: seq<Child>, cur: seq<Child>, id: nat, w: nat, pre: seq<Move>, post: seq<Move>, m: Move, k: nat)
    requires IdsBelow(before, id)
    requires AddedAll(before, cur, id, w, pre) && k < |cur| && cur[k].item == m.item && !HasItem(pre, m.item)
    requires SnapsOf(post, m.item) == SnapsOf(pre, m.item) + {Snap(m.state, m.pos)}
    requires HasItem(post, m.item)
    requires forall k2 | 0 <= k2 < |cur| && k2 != k :: cur[k2].item != m.item
    ensures var r := ExpandWithItem(cur, m.item, id, w, Snap(m.state, m.pos));
      && |r| == |cur| && (forall k2 | 0 <= k2 < |r| && k2 != k :: r[k2] == cur[k2])
      && k < |before| && Added(before[k], r[k], id, w, post)
  {
    var o := m.item;
    var q := Snap(m.state, m.pos);
    var c := cur[k];
    var n := |c.postings|;
    assert c == before[k];
    assert n == 0 || c.postings[n - 1].inputId < id;
    assert SnapsOf(post, o) == {q} by { HasItemSnaps(pre, o); }
    assert SnapSet([q]) == {q};
    var r := ExpandWithItem(cur, o, id, w, q);
    assert r[k] == Child(o, c.prefixSupport + w, c.postings + [Posting(id, [q])]);
    assert r[k].postings[..n] == c.postings;
  }
}
