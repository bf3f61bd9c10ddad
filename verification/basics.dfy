/**
 Small shared definitions: an option type, the integer maximum, and the
 ordering predicates used for the pivot heaps and the item sets of the miner.
 */
module Basics {

  datatype Option<+T> = None | Some(value: T)

  function Max(a: int, b: int): int
  {
    if a >= b then a else b
  }

  /** Non-decreasing order (a heap read back in order may hold an item twice). */
  predicate Ascending(s: seq<int>)
  {
    forall i, j | 0 <= i < j < |s| :: s[i] <= s[j]
  }

  /** Strictly increasing order (the contents of a sorted set). */
  predicate StrictlyAscending(s: seq<int>)
  {
    forall i, j | 0 <= i < j < |s| :: s[i] < s[j]
  }

  predicate AllPositive(s: seq<int>)
  {
    forall i | 0 <= i < |s| :: s[i] > 0
  }

  /** The set of elements of a sequence. */
  function Elems(s: seq<int>): set<int>
  {
    set x | x in s
  }

  /** Sum of a sequence of naturals. */
  function Sum(s: seq<nat>): nat
  {
    if |s| == 0 then 0 else s[0] + Sum(s[1..])
  }

  lemma {:induction false} SumAppend(a: seq<nat>, b: seq<nat>)
    ensures Sum(a + b) == Sum(a) + Sum(b)
  {
    if |a| == 0 {
      assert a + b == b;
    } else {
      assert (a + b)[1..] == a[1..] + b;
      SumAppend(a[1..], b);
    }
  }

  /** A non-empty set has an element to pick. */
  lemma NonEmptyHasElement(s: set<int>)
    requires s != {}
    ensures exists x :: x in s
  {
    if forall x :: x !in s {
      assert false;
    }
  }
}
