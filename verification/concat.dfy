/**
 The concatenated transition representation: all paths a sequence sends to
 one partition, in one integer list

   [N, off_0, ..., off_{N-1}, path_0 ..., path_{N-1} ...]

 where off_i is the position at which path i starts. A path is a list of
 (transition number, item) pairs. The miner of the partition reads the list
 back pair by pair (incStepOnePassConcat).
 */
module Concat {
  import opened Basics
  import opened Transducer
  import opened IncSteps

  // -- the layout ------------------------------------------------------------------------------------------------------

  /** All paths one after the other. */
  function Flat(paths: seq<seq<int>>): (r: seq<int>)
  {
    if |paths| == 0 then [] else paths[0] + Flat(paths[1..])
  }

  lemma {:induction false} FlatSplit(paths: seq<seq<int>>, k: nat)
    requires k <= |paths|
    ensures Flat(paths) == Flat(paths[..k]) + Flat(paths[k..])
  {
    if k > 0 {
      assert paths[..k][0] == paths[0] && paths[..k][1..] == paths[1..][..k - 1];
      assert paths[k..] == paths[1..][k - 1..];
      FlatSplit(paths[1..], k - 1);
    } else {
      assert paths[k..] == paths;
    }
  }

  lemma FlatSnoc(paths: seq<seq<int>>, k: nat)
    requires k < |paths|
    ensures Flat(paths[..k + 1]) == Flat(paths[..k]) + paths[k]
  {
    FlatSplit(paths[..k + 1], k);
    assert paths[..k + 1][..k] == paths[..k];
    assert paths[..k + 1][k..] == [paths[k]];
    assert Flat([paths[k]]) == paths[k] + Flat([]);
  }

  /** Where path i starts: after the count, the N offsets and the paths before it. */
  function Offset(paths: seq<seq<int>>, i: nat): int
    requires i <= |paths|
  {
    1 + |paths| + |Flat(paths[..i])|
  }

  /** getPivotItemsAndTransitionRepresentationOfOneSequence's send list for one partition. */
  function Encode(paths: seq<seq<int>>): (send: seq<int>)
    ensures |send| == 1 + |paths| + |Flat(paths)|
  {
    [|paths|] + seq(|paths|, i requires 0 <= i < |paths| => Offset(paths, i)) + Flat(paths)
  }

  /**
   The send-list construction as the source does it: N, then N placeholder
   offsets, then each path appended while its offset is filled in.
   */
  method EncodePaths(paths: seq<seq<int>>) returns (send: seq<int>)
    ensures send == Encode(paths)
  {
    var n := |paths|;
    send := [n] + seq(n, i => 0);
    var currentOffset := 1 + n;
    var pathNo := 0;
    while pathNo < n
      invariant 0 <= pathNo <= n
      invariant |send| == 1 + n + |Flat(paths[..pathNo])|
      invariant send[0] == n
      invariant forall i | 0 <= i < pathNo :: send[1 + i] == Offset(paths, i)
      invariant send[1 + n..] == Flat(paths[..pathNo])
      invariant currentOffset == Offset(paths, pathNo)
    {
      FlatSnoc(paths, pathNo);
      send := send[1 + pathNo := currentOffset];
      currentOffset := currentOffset + |paths[pathNo]|;
      send := send + paths[pathNo];
      pathNo := pathNo + 1;
    }
    assert paths[..n] == paths;
    assert send == Encode(paths) by {
      assert send[1 + n..] == Encode(paths)[1 + n..];
    }
  }

  /** A recorded path: a non-empty list of (transition number, item) pairs. */
  predicate PathsOk(paths: seq<seq<int>>)
  {
    forall i | 0 <= i < |paths| :: |paths[i]| > 0 && |paths[i]| % 2 == 0
  }

  /** A count N followed by at least N more entries. */
  predicate HeaderOk(send: seq<int>)
  {
    |send| >= 1 && 0 <= send[0] && 1 + send[0] <= |send|
  }

  /** The N offsets of a send list. */
  function Offs(send: seq<int>): (r: seq<int>)
    requires HeaderOk(send)
    ensures |r| == send[0]
  {
    send[1..1 + send[0]]
  }

  /**
   A send list the reader can walk: pair data of even length after the
   offsets, and every offset starts a pair inside the data.
   */
  predicate ConcatOk(send: seq<int>)
  {
    && HeaderOk(send)
    && (|send| - 1 - send[0]) % 2 == 0
    && forall x | x in Offs(send) :: 1 + send[0] <= x < |send| && (x - 1 - send[0]) % 2 == 0
  }

  /** A position the reader may be called with: 0, or the start of a pair in the data. */
  predicate Aligned(send: seq<int>, pos: nat)
    requires ConcatOk(send)
  {
    pos == 0 || (pos >= 1 + send[0] && (pos - 1 - send[0]) % 2 == 0)
  }

  /** The offsets of an encoded list are the path offsets. */
  lemma EncodeOffs(paths: seq<seq<int>>)
    ensures HeaderOk(Encode(paths))
    ensures Offs(Encode(paths)) == seq(|paths|, i requires 0 <= i < |paths| => Offset(paths, i))
    ensures Encode(paths)[1 + |paths|..] == Flat(paths)
  {
  }

  // -- decoding --------------------------------------------------------------------------------------------------------

  /** The offsets start right after themselves, never decrease and stay within the list. */
  predicate OffsetsChained(send: seq<int>)
  {
    && HeaderOk(send)
    && (send[0] == 0 ==> |send| == 1)
    && (send[0] > 0 ==> Offs(send)[0] == 1 + send[0] && Offs(send)[send[0] - 1] <= |send|)
    && Ascending(Offs(send))
  }

  /** Where path i of a send list ends: the next offset, or the end of the list for the last one. */
  function EndOf(send: seq<int>, i: nat): (e: int)
    requires OffsetsChained(send) && i < send[0]
    ensures 1 + send[0] <= Offs(send)[i] <= e <= |send|
  {
    var o := Offs(send);
    assert o[0] <= o[i] && o[i] <= o[send[0] - 1];
    if i + 1 < send[0] then
      assert o[i] <= o[i + 1] <= o[send[0] - 1];
      o[i + 1]
    else |send|
  }

  /** Reads the paths back by slicing between consecutive offsets; None for a malformed list. */
  function Decode(send: seq<int>): (r: Option<seq<seq<int>>>)
    ensures r.Some? <==> OffsetsChained(send)
    ensures r.Some? ==> |r.value| == send[0]
    ensures r.Some? ==> forall i | 0 <= i < send[0] :: r.value[i] == send[Offs(send)[i]..EndOf(send, i)]
  {
    if !OffsetsChained(send) then None
    else
      var n := send[0];
      Some(seq(n, i requires 0 <= i < n => send[Offs(send)[i]..EndOf(send, i)]))
  }

  lemma {:induction false} OffsetStep(paths: seq<seq<int>>, i: nat)
    requires i < |paths|
    ensures Offset(paths, i + 1) == Offset(paths, i) + |paths[i]|
  {
    FlatSnoc(paths, i);
  }

  /** The data of path i sits between its offset and the next one. */
  lemma {:induction false} EncodeSlice(paths: seq<seq<int>>, i: nat)
    requires i < |paths|
    ensures Offset(paths, i) + |paths[i]| <= |Encode(paths)|
    ensures Encode(paths)[Offset(paths, i)..Offset(paths, i) + |paths[i]|] == paths[i]
  {
    var n := |paths|;
    var send := Encode(paths);
    FlatSplit(paths, i);
    FlatSplit(paths[i..], 1);
    assert paths[i..][..1] == [paths[i]];
    assert Flat([paths[i]]) == paths[i] + Flat([]);
    assert Flat(paths) == Flat(paths[..i]) + paths[i] + Flat(paths[i..][1..]);
    EncodeOffs(paths);
    var o := |Flat(paths[..i])|;
    assert send[1 + n + o..1 + n + o + |paths[i]|] == Flat(paths)[o..o + |paths[i]|];
  }

  lemma {:induction false} OffsetMonotone(paths: seq<seq<int>>, i: nat, j: nat)
    requires i <= j <= |paths|
    ensures Offset(paths, i) <= Offset(paths, j)
    ensures PathsOk(paths) && i < j ==> Offset(paths, i) < Offset(paths, j)
    decreases j - i
  {
    if i < j {
      OffsetStep(paths, i);
      OffsetMonotone(paths, i + 1, j);
    }
  }

  lemma OffsetEnds(paths: seq<seq<int>>)
    ensures Offset(paths, 0) == 1 + |paths|
    ensures Offset(paths, |paths|) == |Encode(paths)|
  {
    assert paths[..0] == [];
    assert paths[..|paths|] == paths;
  }

  /** An encoded list has chained offsets. */
  lemma EncodeChained(paths: seq<seq<int>>)
    ensures OffsetsChained(Encode(paths))
  {
    var n := |paths|;
    var send := Encode(paths);
    EncodeOffs(paths);
    OffsetEnds(paths);
    var o := Offs(send);
    if n > 0 {
      OffsetMonotone(paths, n - 1, n);
    } else {
      assert Flat(paths) == [];
    }
    forall i, j | 0 <= i < j < n ensures o[i] <= o[j] {
      OffsetMonotone(paths, i, j);
    }
  }

  lemma DecodeEncodeAt(paths: seq<seq<int>>, i: nat)
    requires i < |paths|
    ensures OffsetsChained(Encode(paths))
    ensures Decode(Encode(paths)).value[i] == paths[i]
  {
    var n := |paths|;
    var send := Encode(paths);
    EncodeChained(paths);
    EncodeOffs(paths);
    OffsetEnds(paths);
    var o := Offs(send);
    OffsetStep(paths, i);
    EncodeSlice(paths, i);
    assert o[i] == Offset(paths, i);
    assert EndOf(send, i) == Offset(paths, i + 1) by {
      if i + 1 < n {
        assert o[i + 1] == Offset(paths, i + 1);
      }
    }
  }

  /** Decoding a send list gives back the paths that were encoded, in order. */
  lemma DecodeEncode(paths: seq<seq<int>>)
    ensures Decode(Encode(paths)) == Some(paths)
  {
    EncodeChained(paths);
    var d := Decode(Encode(paths)).value;
    forall i | 0 <= i < |paths| ensures d[i] == paths[i] {
      DecodeEncodeAt(paths, i);
    }
    assert d == paths;
  }

  /** Encoding the decoded paths rebuilds the send list. */
  lemma EncodeDecode(send: seq<int>)
    requires OffsetsChained(send)
    ensures Encode(Decode(send).value) == send
  {
    var n := send[0];
    var paths := Decode(send).value;
    forall i | 0 <= i <= n
      ensures 1 + n <= Offset(paths, i) <= |send|
      ensures Offset(paths, i) == (if i < n then send[1 + i] else |send|)
      ensures Flat(paths[..i]) == send[1 + n..Offset(paths, i)]
    {
      DecodedPrefix(send, i);
    }
    var e := Encode(paths);
    EncodeOffs(paths);
    assert paths[..n] == paths;
    assert |e| == |send|;
    forall k | 0 <= k < |send| ensures e[k] == send[k] {
      if 1 + n <= k {
        assert e[k] == Flat(paths)[k - 1 - n];
      } else if 1 <= k {
        assert e[k] == Offset(paths, k - 1);
      }
    }
  }

  lemma {:induction false} DecodedPrefix(send: seq<int>, i: nat)
    requires OffsetsChained(send) && i <= send[0]
    ensures 1 + send[0] <= Offset(Decode(send).value, i) <= |send|
    ensures Offset(Decode(send).value, i) == (if i < send[0] then send[1 + i] else |send|)
    ensures Flat(Decode(send).value[..i]) == send[1 + send[0]..Offset(Decode(send).value, i)]
    decreases i
  {
    var n := send[0];
    var paths := Decode(send).value;
    if i == 0 {
      assert paths[..0] == [];
      if n == 0 {
        assert |send| == 1;
      } else {
        assert send[1] == Offs(send)[0];
      }
    } else {
      DecodedPrefix(send, i - 1);
      DecodedStep(send, paths, i);
      assert i < n ==> send[1 + i] == Offs(send)[i];
    }
  }

  /** One more decoded path: it runs from its offset to the next one (or the end). */
  lemma DecodedStep(send: seq<int>, paths: seq<seq<int>>, i: nat)
    requires OffsetsChained(send) && Decode(send) == Some(paths) && 0 < i <= send[0]
    requires 1 + send[0] <= send[i] <= |send| && Offset(paths, i - 1) == send[i]
    requires Flat(paths[..i - 1]) == send[1 + send[0]..send[i]]
    ensures Offset(paths, i) == EndOf(send, i - 1)
    ensures Flat(paths[..i]) == send[1 + send[0]..EndOf(send, i - 1)]
  {
    var e := EndOf(send, i - 1);
    assert send[i] == Offs(send)[i - 1];
    assert paths[i - 1] == send[send[i]..e];
    FlatJoin(paths, i - 1, send, 1 + send[0], send[i], e);
  }

  /** Flattening one more path that follows the flattened ones in `send`. */
  lemma FlatJoin(paths: seq<seq<int>>, k: nat, send: seq<int>, lo: nat, mid: nat, hi: nat)
    requires k < |paths| && lo <= mid <= hi <= |send|
    requires Flat(paths[..k]) == send[lo..mid] && paths[k] == send[mid..hi]
    ensures Flat(paths[..k + 1]) == send[lo..hi]
  {
    FlatSnoc(paths, k);
    assert send[lo..mid] + send[mid..hi] == send[lo..hi];
  }

  /** Encoding well-formed paths gives a list the reader accepts. */
  lemma EncodeOk(paths: seq<seq<int>>)
    requires PathsOk(paths)
    ensures ConcatOk(Encode(paths))
  {
    var n := |paths|;
    var send := Encode(paths);
    EncodeOffs(paths);
    OffsetEnds(paths);
    forall x | x in Offs(send) ensures 1 + n <= x < |send| && (x - 1 - n) % 2 == 0 {
      var i :| 0 <= i < n && Offs(send)[i] == x;
      OffsetMonotone(paths, 0, i);
      OffsetMonotone(paths, i, n);
      assert PathsOk(paths[..i]);
      FlatEven(paths[..i]);
    }
    FlatEven(paths);
  }

  lemma {:induction false} FlatEven(paths: seq<seq<int>>)
    requires PathsOk(paths)
    ensures |Flat(paths)| % 2 == 0
  {
    if |paths| > 0 {
      assert PathsOk(paths[1..]);
      FlatEven(paths[1..]);
    }
  }

  // -- the reader ------------------------------------------------------------------------------------------------------

  /** pos is one of the path offsets: the end of the path before it. */
  predicate AtPathStart(send: seq<int>, pos: nat)
    requires HeaderOk(send)
  {
    pos in Offs(send)
  }

  /**
   incStepOnePassConcat: the end of the list or of a path reaches a final
   state; position 0 follows the first pair of every path; otherwise the pair
   at pos is read.
   */
  function IncStepConcat(fst: Fst, pivotItem: int, send: seq<int>, pos: nat): StepResult
    requires ConcatOk(send) && Aligned(send, pos)
    decreases |send| - pos, 2, 0
  {
    if pos >= |send| then StepResult(true, [])
    else if AtPathStart(send, pos) then StepResult(true, [])
    else if pos == 0 then FollowStarts(fst, pivotItem, send, 0)
    else ReadPair(fst, pivotItem, send, pos)
  }

  /** The loop at position 0 over the paths, from path i on. */
  function FollowStarts(fst: Fst, pivotItem: int, send: seq<int>, i: nat): StepResult
    requires ConcatOk(send) && i <= send[0]
    decreases |send|, 1, send[0] - i
  {
    if i == send[0] then NoMoves
    else
      assert Offs(send)[i] in Offs(send);
      Join(ReadPair(fst, pivotItem, send, Offs(send)[i]), FollowStarts(fst, pivotItem, send, i + 1))
  }

  /**
   One (transition number, item) pair at `localPos`: an epsilon transition
   continues with the next pair; any other expands every output item the
   one-pass filter admits, continuing after the pair.
   */
  function ReadPair(fst: Fst, pivotItem: int, send: seq<int>, localPos: nat): StepResult
    requires ConcatOk(send) && 1 + send[0] <= localPos < |send| && (localPos - 1 - send[0]) % 2 == 0
    decreases |send| - localPos, 0, 0
  {
    var trNo := send[localPos];
    var item := send[localPos + 1];
    var kind := fst.kindOf(trNo);
    if kind.Epsilon? then
      IncStepConcat(fst, pivotItem, send, localPos + 2)
    else
      StepResult(false, AdmittedMoves(OutputItems(fst, trNo, kind, item), pivotItem, 0, localPos + 2))
  }

  // -- what the reader reads -------------------------------------------------------------------------------------------

  /**
   Reading one path from its k-th pair on, with the path stored at `offset`:
   reached exactly when only epsilon pairs remain; otherwise the moves of the
   first non-epsilon pair.
   */
  function PathStep(fst: Fst, pivotItem: int, path: seq<int>, k: nat, offset: nat): StepResult
    requires |path| % 2 == 0 && 2 * k <= |path|
    decreases |path| - 2 * k
  {
    if 2 * k == |path| then StepResult(true, [])
    else
      var kind := fst.kindOf(path[2 * k]);
      if kind.Epsilon? then PathStep(fst, pivotItem, path, k + 1, offset)
      else StepResult(false, AdmittedMoves(OutputItems(fst, path[2 * k], kind, path[2 * k + 1]), pivotItem, 0, offset + 2 * k + 2))
  }

  /** PathStep reaches a final state exactly when every remaining pair is an epsilon transition. */
  lemma {:induction false} PathStepReached(fst: Fst, pivotItem: int, path: seq<int>, k: nat, offset: nat)
    requires |path| % 2 == 0 && 2 * k <= |path|
    ensures PathStep(fst, pivotItem, path, k, offset).reached
            <==> forall j | k <= j < |path| / 2 :: fst.kindOf(path[2 * j]).Epsilon?
    decreases |path| - 2 * k
  {
    if 2 * k < |path| {
      PathStepReached(fst, pivotItem, path, k + 1, offset);
    }
  }

  /**
   The reader on any well-formed list, inside a segment [off, end) holding
   `path` that ends at the end of the list or at an offset and contains no
   offset: reading pair k >= 1 is reading that pair of the path.
   */
  lemma {:induction false} ReadsSegment(fst: Fst, pivotItem: int, send: seq<int>, off: nat, path: seq<int>, k: nat)
    requires ConcatOk(send)
    requires 1 + send[0] <= off && (off - 1 - send[0]) % 2 == 0
    requires |path| % 2 == 0 && off + |path| <= |send| && send[off..off + |path|] == path
    requires off + |path| == |send| || AtPathStart(send, off + |path|)
    requires forall q | off < q < off + |path| :: !AtPathStart(send, q)
    requires 1 <= k && 2 * k <= |path|
    ensures Aligned(send, off + 2 * k)
    ensures IncStepConcat(fst, pivotItem, send, off + 2 * k) == PathStep(fst, pivotItem, path, k, off)
    decreases |path| - 2 * k
  {
    var pos := off + 2 * k;
    if 2 * k < |path| {
      assert !AtPathStart(send, pos);
      assert send[pos] == path[2 * k] && send[pos + 1] == path[2 * k + 1];
      if fst.kindOf(path[2 * k]).Epsilon? {
        ReadsSegment(fst, pivotItem, send, off, path, k + 1);
      }
    }
  }

  /** The segment of path i in an encoded list satisfies what ReadsSegment needs. */
  lemma SegmentOfPath(paths: seq<seq<int>>, i: nat)
    requires PathsOk(paths) && i < |paths|
    ensures ConcatOk(Encode(paths))
    ensures 1 + |paths| <= Offset(paths, i) && (Offset(paths, i) - 1 - |paths|) % 2 == 0
    ensures Offset(paths, i) + |paths[i]| <= |Encode(paths)|
    ensures Encode(paths)[Offset(paths, i)..Offset(paths, i) + |paths[i]|] == paths[i]
    ensures Offset(paths, i) + |paths[i]| == |Encode(paths)| || AtPathStart(Encode(paths), Offset(paths, i) + |paths[i]|)
    ensures forall q | Offset(paths, i) < q < Offset(paths, i) + |paths[i]| :: !AtPathStart(Encode(paths), q)
    ensures Offs(Encode(paths))[i] == Offset(paths, i)
  {
    var send := Encode(paths);
    var n := |paths|;
    EncodeOk(paths);
    EncodeOffs(paths);
    OffsetEnds(paths);
    OffsetStep(paths, i);
    EncodeSlice(paths, i);
    assert Offs(send)[i] in Offs(send);
    if i + 1 < n {
      assert Offs(send)[i + 1] == Offset(paths, i + 1);
    }
    forall q | Offset(paths, i) < q < Offset(paths, i) + |paths[i]| ensures !AtPathStart(send, q) {
      forall j | 0 <= j < n ensures Offs(send)[j] != q {
        if j <= i {
          OffsetMonotone(paths, j, i);
        } else {
          OffsetMonotone(paths, i + 1, j);
        }
      }
    }
  }

  /** Reading pair k >= 1 of path i of an encoded list is reading that pair of the path itself. */
  lemma ReadsPath(fst: Fst, pivotItem: int, paths: seq<seq<int>>, i: nat, k: nat)
    requires PathsOk(paths) && i < |paths| && 1 <= k && 2 * k <= |paths[i]|
    ensures ConcatOk(Encode(paths)) && Aligned(Encode(paths), Offset(paths, i) + 2 * k)
    ensures IncStepConcat(fst, pivotItem, Encode(paths), Offset(paths, i) + 2 * k)
            == PathStep(fst, pivotItem, paths[i], k, Offset(paths, i))
  {
    SegmentOfPath(paths, i);
    ReadsSegment(fst, pivotItem, Encode(paths), Offset(paths, i), paths[i], k);
  }

  /** The paths from i on, each read from its first pair, joined. */
  function StartsFrom(fst: Fst, pivotItem: int, paths: seq<seq<int>>, i: nat): StepResult
    requires PathsOk(paths) && i <= |paths|
    decreases |paths| - i
  {
    if i == |paths| then NoMoves
    else Join(PathStep(fst, pivotItem, paths[i], 0, Offset(paths, i)), StartsFrom(fst, pivotItem, paths, i + 1))
  }

  lemma {:induction false} StartsCorrect(fst: Fst, pivotItem: int, paths: seq<seq<int>>, i: nat)
    requires PathsOk(paths) && i <= |paths|
    ensures ConcatOk(Encode(paths)) && HeaderOk(Encode(paths)) && Encode(paths)[0] == |paths|
    ensures FollowStarts(fst, pivotItem, Encode(paths), i) == StartsFrom(fst, pivotItem, paths, i)
    decreases |paths| - i
  {
    EncodeOk(paths);
    if i < |paths| {
      StartsCorrect(fst, pivotItem, paths, i + 1);
      FirstPair(fst, pivotItem, paths, i);
    }
  }

  lemma FirstPair(fst: Fst, pivotItem: int, paths: seq<seq<int>>, i: nat)
    requires PathsOk(paths) && i < |paths|
    ensures ConcatOk(Encode(paths)) && Offs(Encode(paths))[i] == Offset(paths, i)
    ensures 1 + |paths| <= Offset(paths, i) < |Encode(paths)| && (Offset(paths, i) - 1 - |paths|) % 2 == 0
    ensures ReadPair(fst, pivotItem, Encode(paths), Offset(paths, i)) == PathStep(fst, pivotItem, paths[i], 0, Offset(paths, i))
  {
    var send := Encode(paths);
    var off := Offset(paths, i);
    SegmentOfPath(paths, i);
    assert send[off] == paths[i][0] && send[off + 1] == paths[i][1];
    if fst.kindOf(paths[i][0]).Epsilon? {
      ReadsSegment(fst, pivotItem, send, off, paths[i], 1);
    }
  }

  /** At position 0 the reader follows the first pair of every path. */
  lemma ReadsAllStarts(fst: Fst, pivotItem: int, paths: seq<seq<int>>)
    requires PathsOk(paths)
    ensures ConcatOk(Encode(paths))
    ensures IncStepConcat(fst, pivotItem, Encode(paths), 0) == StartsFrom(fst, pivotItem, paths, 0)
  {
    EncodeOk(paths);
    EncodeOffs(paths);
    StartsCorrect(fst, pivotItem, paths, 0);
    var send := Encode(paths);
    assert !AtPathStart(send, 0);
  }
}
