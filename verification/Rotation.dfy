/** Where the bytes of an append go when files are limited in size, and when no frame is cut by that. */
module Rotation {
  import opened Bytes
  import opened Framing
  import opened Segments

  /** A limit of 0 means none. */
  predicate HasRoom(file: Str, limit: nat) { limit == 0 || |file| < limit }

  /** A byte goes to the end of the last file, or to a new one if that is full. */
  function PutByte(files: seq<Str>, b: byte, limit: nat): (r: seq<Str>)
    requires files != []
    ensures r != []
  {
    var n := |files| - 1;
    if HasRoom(files[n], limit) then files[..n] + [files[n] + [b]] else files + [[b]]
  }

  function Put(files: seq<Str>, data: Str, limit: nat): (r: seq<Str>)
    requires files != []
    ensures r != []
  {
    if data == [] then files else PutByte(Put(files, data[..|data| - 1], limit), data[|data| - 1], limit)
  }

  lemma {:induction false} PutAppend(files: seq<Str>, a: Str, b: Str, limit: nat)
    requires files != []
    ensures Put(files, a + b, limit) == Put(Put(files, a, limit), b, limit)
    decreases |b|
  {
    if b == [] {
      Unit(a);
    } else {
      var n := |b| - 1;
      PutAppend(files, a, b[..n], limit);
      assert (a + b)[..|a + b| - 1] == a + b[..n] && (a + b)[|a + b| - 1] == b[n];
    }
  }

  /** A chunk that fits into the last file. */
  lemma {:induction false} PutFits(front: seq<Str>, last: Str, chunk: Str, limit: nat)
    requires limit == 0 || |last| + |chunk| <= limit
    ensures Put(front + [last], chunk, limit) == front + [last + chunk]
    decreases |chunk|
  {
    if chunk == [] {
      Unit(last);
    } else {
      var n := |chunk| - 1;
      PutFits(front, last, chunk[..n], limit);
      var files := front + [last + chunk[..n]];
      assert files[..|files| - 1] == front && files[|files| - 1] == last + chunk[..n];
      Assoc(last, chunk[..n], [chunk[n]]);
      assert chunk[..n] + [chunk[n]] == chunk;
    }
  }

  /** A chunk behind a full file that fits into a new one. */
  lemma PutFresh(files: seq<Str>, chunk: Str, limit: nat)
    requires files != [] && !HasRoom(files[|files| - 1], limit) && 0 < |chunk| <= limit
    ensures Put(files, chunk, limit) == files + [chunk]
  {
    var b, rest := chunk[..1], chunk[1..];
    assert chunk == b + rest && b == [chunk[0]] && b[..0] == [];
    PutAppend(files, b, rest, limit);
    assert Put(files, b, limit) == PutByte(Put(files, [], limit), chunk[0], limit) == files + [b];
    PutFits(files, b, rest, limit);
  }

  lemma JoinThree<T>(a: seq<T>, b: seq<T>, c: seq<T>)
    ensures a + b + c == a + (b + c)
  {
  }

  /** Any amount behind a full file. */
  lemma {:induction false} PutBlocks(files: seq<Str>, data: Str, limit: nat)
    requires files != [] && !HasRoom(files[|files| - 1], limit) && data != []
    ensures Put(files, data, limit) == files + Blocks(data, limit)
    decreases |data|
  {
    if |data| <= limit {
      PutFresh(files, data, limit);
    } else {
      var a, b := data[..limit], data[limit..];
      assert data == a + b;
      PutAppend(files, a, b, limit);
      PutFresh(files, a, limit);
      PutBlocks(files + [a], b, limit);
      JoinThree(files, [a], Blocks(b, limit));
    }
  }

  /** How many more bytes the file takes. */
  function Room(file: Str, limit: nat): nat { if |file| < limit then limit - |file| else 0 }

  /** The last file is filled up, and the rest is in blocks behind it. */
  lemma PutSplits(front: seq<Str>, last: Str, data: Str, limit: nat)
    requires limit > 0 && |data| > Room(last, limit)
    ensures var r := Room(last, limit);
            Put(front + [last], data, limit) == front + [last + data[..r]] + Blocks(data[r..], limit)
  {
    var r := Room(last, limit);
    var a, b := data[..r], data[r..];
    assert data == a + b;
    PutAppend(front + [last], a, b, limit);
    if r == 0 { Unit(last); } else { PutFits(front, last, a, limit); }
    PutBlocks(front + [last + a], b, limit);
  }

  // ----- Frames appended to frames -----

  /** Appending frames to the segment last, from frame k on, begins new segments only between two frames before n. */
  ghost predicate RotatesBetween<M(!new)>(enc: M -> Str, ms: seq<M>, k: nat, last: Str, limit: nat, n: nat)
    requires k <= |ms|
  {
    limit > 0 ==> AlignedFrom(enc, ms, |Encode(enc, ms[..k])| + Room(last, limit), limit, n)
  }

  lemma AlignedBehind<M(!new)>(enc: M -> Str, ms: seq<M>, k: nat, size: nat, n: nat)
    requires size > 0 && k <= |ms|
    requires AlignedFrom(enc, ms, |Encode(enc, ms[..k])|, size, |Encode(enc, ms[..k])| + n)
    ensures AlignedUpTo(enc, ms[k..], size, n)
  {
    forall p | 0 <= p < n && IsMultiple(p, size) ensures IsBoundary(enc, ms[k..], p) {
      assert IsBoundary(enc, ms, |Encode(enc, ms[..k])| + p);
      BoundaryDown(enc, ms, k, p);
    }
  }

  /** What fits into the last segment. */
  lemma FitsLate<M(!new)>(enc: M -> Str, front: seq<Str>, last: Str, ms: seq<M>, k: nat, data: Str)
    requires k <= |ms| && OnBoundaries(enc, front + [last], ms[..k]) && Encode(enc, ms[..k]) + data <= Encode(enc, ms)
    ensures LateCut(enc, front + [last + data], ms, |Encode(enc, ms[..k])| + |data|)
  {
    var files := front + [last + data];
    var i := AllButLast(enc, front, last, ms[..k]);
    assert ms[..k][..i] == ms[..i] && files[..|front|] == front && files[|front| + 1..] == [];
    assert LateAt(enc, files, ms, |front|, i);
    BoundariesConcat(enc, front + [last], ms[..k]);
    ConcatSnoc(front, last);
    ConcatSnoc(front, last + data);
    Assoc(Concat(front), last, data);
  }

  lemma BlocksBehind<M(!new)>(enc: M -> Str, filled: seq<Str>, files: seq<Str>, ms: seq<M>, j: nat, rest: Str,
                              limit: nat, start: nat, n: nat)
    requires j <= |ms| && OnBoundaries(enc, filled, ms[..j]) && limit > 0 && files == filled + Blocks(rest, limit)
    requires |rest| <= |Encode(enc, ms[j..])| && rest == Encode(enc, ms[j..])[..|rest|]
    requires start == |Encode(enc, ms[..j])| && n == start + |rest| && AlignedFrom(enc, ms, start, limit, n)
    ensures LateCut(enc, files, ms, n)
  {
    AlignedBehind(enc, ms, j, limit, |rest|);
    BlocksAreLate(enc, ms[j..], limit, |rest|);
    LateBehind(enc, filled, Blocks(rest, limit), ms, j, |rest|);
  }

  lemma DataIsNext(all: Str, front: Str, data: Str)
    requires front + data <= all
    ensures |front| <= |all| && |data| <= |all| - |front| && all[|front|..][..|data|] == data
  {
    assert all[..|front + data|] == front + data;
    assert all[|front|..][..|data|] == all[..|front + data|][|front|..];
  }

  /** The front of the stream up to a boundary behind frame k. */
  lemma NextBoundary<M(!new)>(enc: M -> Str, ms: seq<M>, k: nat, data: Str, r: nat) returns (i: nat)
    requires k <= |ms| && Encode(enc, ms[..k]) + data <= Encode(enc, ms)
    requires r < |data| && IsBoundary(enc, ms, |Encode(enc, ms[..k])| + r)
    ensures k + i <= |ms| && |Encode(enc, ms[..k + i])| == |Encode(enc, ms[..k])| + r
    ensures data[..r] == Encode(enc, ms[k..][..i])
    ensures |data| - r <= |Encode(enc, ms[k + i..])| && data[r..] == Encode(enc, ms[k + i..])[..|data| - r]
  {
    BoundaryDown(enc, ms, k, r);
    i :| EndsAt(enc, ms[k..], i, r);
    PrefixSize(enc, ms, k, i);
    SplitAtFrame(enc, ms, k);
    SplitAtFrame(enc, ms[k..], i);
    DataIsNext(Encode(enc, ms), Encode(enc, ms[..k]), data);
    FrontOfFront(Encode(enc, ms[k..]), |data|, r);
    assert ms[k..][i..] == ms[k + i..];
  }

  lemma FrontOfFront<T>(s: seq<T>, n: nat, r: nat)
    requires r <= n <= |s|
    ensures s[..n][..r] == s[..r] && s[..n][r..] == s[r..][..n - r]
  {
  }

  /** The last segment is filled up to the end of frame j, and blocks with what comes next are put behind it. */
  lemma FillsUp<M(!new)>(enc: M -> Str, front: seq<Str>, last: Str, ms: seq<M>, k: nat, data: Str, limit: nat)
    returns (j: nat, filled: seq<Str>, rest: Str)
    requires k <= |ms| && OnBoundaries(enc, front + [last], ms[..k]) && Encode(enc, ms[..k]) + data <= Encode(enc, ms)
    requires limit > 0 && |data| > Room(last, limit)
    requires IsBoundary(enc, ms, |Encode(enc, ms[..k])| + Room(last, limit))
    ensures j <= |ms| && |Encode(enc, ms[..j])| == |Encode(enc, ms[..k])| + Room(last, limit)
    ensures OnBoundaries(enc, filled, ms[..j]) && Put(front + [last], data, limit) == filled + Blocks(rest, limit)
    ensures |data| == Room(last, limit) + |rest|
    ensures |rest| <= |Encode(enc, ms[j..])| && rest == Encode(enc, ms[j..])[..|rest|]
  {
    var r := Room(last, limit);
    var i := NextBoundary(enc, ms, k, data, r);
    LastSegmentGrows(enc, front, last, ms[..k], ms[k..][..i]);
    JoinFront(ms, k, i);
    PutSplits(front, last, data, limit);
    j, filled, rest := k + i, front + [last + data[..r]], data[r..];
  }

  lemma FirstIsBoundary<M(!new)>(enc: M -> Str, ms: seq<M>, start: nat, limit: nat, n: nat)
    requires limit > 0 && start < n && AlignedFrom(enc, ms, start, limit, n)
    ensures IsBoundary(enc, ms, start)
  {
    assert IsMultiple(start - start, limit);
  }

  /** The new segments, when the last one could not take all. */
  lemma SpillsLate<M(!new)>(enc: M -> Str, front: seq<Str>, last: Str, ms: seq<M>, k: nat, data: Str, limit: nat,
                            start: nat, n: nat)
    requires k <= |ms| && OnBoundaries(enc, front + [last], ms[..k]) && Encode(enc, ms[..k]) + data <= Encode(enc, ms)
    requires limit > 0 && start == |Encode(enc, ms[..k])| + Room(last, limit) < n == |Encode(enc, ms[..k])| + |data|
    requires AlignedFrom(enc, ms, start, limit, n)
    ensures LateCut(enc, Put(front + [last], data, limit), ms, n)
  {
    FirstIsBoundary(enc, ms, start, limit, n);
    var j, filled, rest := FillsUp(enc, front, last, ms, k, data, limit);
    BlocksBehind(enc, filled, Put(front + [last], data, limit), ms, j, rest, limit, start, n);
  }

  /**
    Segments that end between frames, and the next bytes of the stream put behind them: if new segments
    begin between two frames, only the last one can end inside a frame.
  */
  lemma PutIsLate<M(!new)>(enc: M -> Str, front: seq<Str>, last: Str, ms: seq<M>, k: nat, data: Str, limit: nat)
    requires k <= |ms| && OnBoundaries(enc, front + [last], ms[..k]) && Encode(enc, ms[..k]) + data <= Encode(enc, ms)
    requires RotatesBetween(enc, ms, k, last, limit, |Encode(enc, ms[..k])| + |data|)
    ensures LateCut(enc, Put(front + [last], data, limit), ms, |Encode(enc, ms[..k])| + |data|)
  {
    if limit > 0 && |data| > Room(last, limit) {
      var base := |Encode(enc, ms[..k])|;
      SpillsLate(enc, front, last, ms, k, data, limit, base + Room(last, limit), base + |data|);
    } else {
      FitsLate(enc, front, last, ms, k, data);
      if data == [] { Unit(last); } else { PutFits(front, last, data, limit); }
    }
  }

  // ----- Exactly when nothing is cut -----

  lemma FirstThenRest<M(!new)>(enc: M -> Str, files: seq<Str>, ms: seq<M>, k: nat, i: nat)
    requires files != [] && k + i <= |ms| && files[0] == Encode(enc, ms[..k])
    requires OnBoundaries(enc, files[1..], ms[k..][..i])
    ensures OnBoundaries(enc, files, ms[..k + i])
  {
    FrontOfFront(ms, k + i, k);
    BoundaryCons(enc, ms[..k + i], k, files[1..]);
    assert [files[0]] + files[1..] == files;
  }

  lemma {:induction false} BoundariesSplit<M(!new)>(enc: M -> Str, a: seq<Str>, b: seq<Str>, ms: seq<M>)
    returns (j: nat)
    requires OnBoundaries(enc, a + b, ms)
    ensures j <= |ms| && OnBoundaries(enc, a, ms[..j]) && OnBoundaries(enc, b, ms[j..])
  {
    if a == [] {
      j := 0;
      assert a + b == b && ms[..0] == [] && ms[0..] == ms;
    } else {
      var k, rest := FirstBoundary(enc, a + b, ms);
      ConsJoin(a, b);
      assert rest == a[1..] + b;
      var i := BoundariesSplit(enc, a[1..], b, ms[k..]);
      j := k + i;
      assert ms[k..][i..] == ms[j..];
      FirstThenRest(enc, a, ms, k, i);
    }
  }

  lemma AlignedAgain<M(!new)>(enc: M -> Str, ms: seq<M>, j: nat, size: nat)
    requires size > 0 && j <= |ms| && CutsAligned(enc, ms[j..], size)
    ensures AlignedFrom(enc, ms, |Encode(enc, ms[..j])|, size, |Encode(enc, ms)|)
  {
    var base := |Encode(enc, ms[..j])|;
    SplitAtFrame(enc, ms, j);
    forall pos | base <= pos < |Encode(enc, ms)| && IsMultiple(pos - base, size) ensures IsBoundary(enc, ms, pos) {
      BoundaryUp(enc, ms, j, pos - base);
    }
  }

  lemma SpillsOnBoundaries<M(!new)>(enc: M -> Str, filled: seq<Str>, rest: Str, ms: seq<M>, limit: nat)
    requires limit > 0 && OnBoundaries(enc, filled + Blocks(rest, limit), ms)
    requires Concat(filled) + rest == Encode(enc, ms)
    ensures AlignedFrom(enc, ms, |Concat(filled)|, limit, |Encode(enc, ms)|)
  {
    var j := BoundariesSplit(enc, filled, Blocks(rest, limit), ms);
    BoundariesConcat(enc, filled, ms[..j]);
    SplitAtFrame(enc, ms, j);
    SplitFront(Concat(filled), rest, 0);
    BlocksOnBoundariesIff(enc, ms[j..], limit);
    AlignedAgain(enc, ms, j, limit);
  }

  lemma FilledSize(front: seq<Str>, last: Str, more: Str)
    ensures Concat(front + [last + more]) == Concat(front + [last]) + more
  {
    ConcatSnoc(front, last);
    ConcatSnoc(front, last + more);
    Assoc(Concat(front), last, more);
  }

  lemma OnlyIfBetween<M(!new)>(enc: M -> Str, front: seq<Str>, last: Str, ms: seq<M>, k: nat, data: Str, limit: nat)
    requires k <= |ms| && Concat(front + [last]) == Encode(enc, ms[..k])
    requires Encode(enc, ms[..k]) + data == Encode(enc, ms)
    requires limit > 0 && |data| > Room(last, limit) && OnBoundaries(enc, Put(front + [last], data, limit), ms)
    ensures AlignedFrom(enc, ms, |Encode(enc, ms[..k])| + Room(last, limit), limit, |Encode(enc, ms)|)
  {
    var r := Room(last, limit);
    var filled := front + [last + data[..r]];
    PutSplits(front, last, data, limit);
    FilledSize(front, last, data[..r]);
    JoinParts(Encode(enc, ms[..k]), data, r);
    SpillsOnBoundaries(enc, filled, data[r..], ms, limit);
  }

  lemma JoinParts(front: Str, data: Str, r: nat)
    requires r <= |data|
    ensures front + data[..r] + data[r..] == front + data && |front + data[..r]| == |front| + r
  {
    assert data[..r] + data[r..] == data;
    Assoc(front, data[..r], data[r..]);
  }

  /** All segments end between frames exactly if every new one begins between two. */
  lemma PutOnBoundariesIff<M(!new)>(enc: M -> Str, front: seq<Str>, last: Str, ms: seq<M>, k: nat, limit: nat)
    requires k <= |ms| && OnBoundaries(enc, front + [last], ms[..k])
    ensures OnBoundaries(enc, Put(front + [last], Encode(enc, ms[k..]), limit), ms)
            <==> RotatesBetween(enc, ms, k, last, limit, |Encode(enc, ms)|)
  {
    var data, files := Encode(enc, ms[k..]), Put(front + [last], Encode(enc, ms[k..]), limit);
    BoundariesConcat(enc, front + [last], ms[..k]);
    SplitAtFrame(enc, ms, k);
    assert ms[..k] + ms[k..] == ms && Encode(enc, ms[..k]) + data == Encode(enc, ms);
    if limit == 0 || |data| <= Room(last, limit) {
      LastSegmentGrows(enc, front, last, ms[..k], ms[k..]);
      if data == [] { Unit(last); } else { PutFits(front, last, data, limit); }
    } else if OnBoundaries(enc, files, ms) {
      OnlyIfBetween(enc, front, last, ms, k, data, limit);
    } else if RotatesBetween(enc, ms, k, last, limit, |Encode(enc, ms)|) {
      IfBetween(enc, front, last, ms, k, data, limit);
    }
  }

  lemma IfBetween<M(!new)>(enc: M -> Str, front: seq<Str>, last: Str, ms: seq<M>, k: nat, data: Str, limit: nat)
    requires k <= |ms| && OnBoundaries(enc, front + [last], ms[..k]) && Encode(enc, ms[..k]) + data == Encode(enc, ms)
    requires limit > 0 && |data| > Room(last, limit)
    requires RotatesBetween(enc, ms, k, last, limit, |Encode(enc, ms)|)
    ensures OnBoundaries(enc, Put(front + [last], data, limit), ms)
  {
    var start, n := |Encode(enc, ms[..k])| + Room(last, limit), |Encode(enc, ms)|;
    FirstIsBoundary(enc, ms, start, limit, n);
    var j, filled, rest := FillsUp(enc, front, last, ms, k, data, limit);
    BlocksEndBetween(enc, filled, Put(front + [last], data, limit), ms, j, rest, limit, start);
  }

  lemma BlocksEndBetween<M(!new)>(enc: M -> Str, filled: seq<Str>, files: seq<Str>, ms: seq<M>, j: nat, rest: Str,
                                  limit: nat, start: nat)
    requires j <= |ms| && OnBoundaries(enc, filled, ms[..j]) && limit > 0 && files == filled + Blocks(rest, limit)
    requires |rest| <= |Encode(enc, ms[j..])| && rest == Encode(enc, ms[j..])[..|rest|]
    requires start == |Encode(enc, ms[..j])| && |Encode(enc, ms)| == start + |rest|
    requires AlignedFrom(enc, ms, start, limit, |Encode(enc, ms)|)
    ensures OnBoundaries(enc, files, ms)
  {
    SplitAtFrame(enc, ms, j);
    assert rest == Encode(enc, ms[j..]);
    AlignedBehind(enc, ms, j, limit, |rest|);
    BlocksOnBoundariesIff(enc, ms[j..], limit);
    BoundariesJoin(enc, filled, Blocks(rest, limit), ms[..j], ms[j..]);
    assert ms[..j] + ms[j..] == ms;
  }

  // ----- All files under one limit -----

  lemma {:induction false} MultiplesAdd(a: int, b: int, size: nat)
    requires size > 0 && IsMultiple(a, size) && IsMultiple(b, size)
    ensures IsMultiple(a + b, size)
    decreases a
  {
    if a != 0 {
      MultiplesAdd(a - size, b, size);
      assert a + b - size == a - size + b;
    }
  }

  /** Every multiple of the limit means the same when counted from one of them. */
  lemma AlignedFromMultiple<M(!new)>(enc: M -> Str, ms: seq<M>, start: nat, size: nat, n: nat)
    requires size > 0 && IsMultiple(start, size) && AlignedUpTo(enc, ms, size, n)
    ensures AlignedFrom(enc, ms, start, size, n)
  {
    forall pos | start <= pos < n && IsMultiple(pos - start, size) ensures IsBoundary(enc, ms, pos) {
      MultiplesAdd(pos - start, start, size);
      assert pos - start + start == pos - 0;
    }
  }

  lemma AlignedFront<M(!new)>(enc: M -> Str, ms: seq<M>, i: nat, size: nat, n: nat)
    requires size > 0 && i <= |ms| && |Encode(enc, ms[..i])| <= n && AlignedUpTo(enc, ms, size, n)
    ensures CutsAligned(enc, ms[..i], size)
  {
    forall pos | 0 <= pos < |Encode(enc, ms[..i])| && IsMultiple(pos - 0, size) ensures IsBoundary(enc, ms[..i], pos) {
      assert IsBoundary(enc, ms, pos);
      var k: nat :| EndsAt(enc, ms, k, pos);
      if k > i { PrefixSize(enc, ms, i, k - i); }
      assert ms[..i][..k] == ms[..k] && EndsAt(enc, ms[..i], k, pos);
    }
  }

  lemma RotatesAtMultiples<M(!new)>(enc: M -> Str, ms: seq<M>, k: nat, last: Str, limit: nat, n: nat, end: nat)
    requires k <= |ms| && limit > 0 && AlignedUpTo(enc, ms, limit, n)
    requires end == |Encode(enc, ms[..k])| + Room(last, limit) && IsMultiple(end, limit)
    ensures RotatesBetween(enc, ms, k, last, limit, n)
  {
    AlignedFromMultiple(enc, ms, end, limit, n);
  }
}
