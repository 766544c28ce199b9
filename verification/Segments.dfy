/** A framed stream cut into segments, each decoded afresh: when is nothing lost? */
module Segments {
  import opened Bytes
  import opened Framing

  ghost function Onto<M>(out: seq<M>, r: Option<seq<M>>): Option<seq<M>> {
    match r
    case None => None
    case Some(ms) => Some(out + ms)
  }

  lemma OntoAssoc<M>(out: seq<M>, ms: seq<M>, r: Option<seq<M>>)
    ensures Onto(out, Onto(ms, r)) == Onto(out + ms, r)
  {
    if r.Some? { assert out + (ms + r.value) == out + ms + r.value; }
  }

  /** Every segment is decoded from its own start, and one damaged segment fails the whole read. */
  ghost function ReadSegments<M(!new)>(dec: Str -> Decoded<M>, files: seq<Str>): (r: Option<seq<M>>)
    requires Sound(dec)
  {
    if files == [] then Some([])
    else if DecodeAll(dec, files[0]).verdict == Damaged then None
    else Onto(DecodeAll(dec, files[0]).ms, ReadSegments(dec, files[1..]))
  }

  /** files cuts the encoding of ms into segments that each end between two frames. */
  ghost predicate OnBoundaries<M(!new)>(enc: M -> Str, files: seq<Str>, ms: seq<M>)
    decreases |files|, 1
  {
    if files == [] then ms == [] else exists k: nat :: FirstEndsAt(enc, files, ms, k)
  }

  /** The first segment holds the first k frames, and the others the rest. */
  ghost predicate FirstEndsAt<M(!new)>(enc: M -> Str, files: seq<Str>, ms: seq<M>, k: nat)
    requires files != []
    decreases |files|, 0
  {
    k <= |ms| && files[0] == Encode(enc, ms[..k]) && OnBoundaries(enc, files[1..], ms[k..])
  }

  /** Re-encoding a decoded frame takes no more bytes than were read for it. */
  ghost predicate NeverExpandsAt<M>(dec: Str -> Decoded<M>, enc: M -> Str, b: Str) {
    dec(b).Ok? ==> |enc(dec(b).m)| <= dec(b).size
  }

  ghost predicate NeverExpands<M(!new)>(dec: Str -> Decoded<M>, enc: M -> Str) {
    forall b :: NeverExpandsAt(dec, enc, b)
  }

  lemma {:induction false} SegmentsAppend<M(!new)>(dec: Str -> Decoded<M>, files: seq<Str>, more: seq<Str>, ms: seq<M>)
    requires Sound(dec) && ReadSegments(dec, files) == Some(ms)
    ensures ReadSegments(dec, files + more) == Onto(ms, ReadSegments(dec, more))
  {
    if files == [] {
      assert files + more == more;
      if ReadSegments(dec, more).Some? { assert ms + ReadSegments(dec, more).value == ReadSegments(dec, more).value; }
    } else {
      var rest := ReadSegments(dec, files[1..]).value;
      SegmentsAppend(dec, files[1..], more, rest);
      assert (files + more)[1..] == files[1..] + more;
      OntoAssoc(DecodeAll(dec, files[0]).ms, rest, ReadSegments(dec, more));
    }
  }

  lemma SegmentsJoin<M(!new)>(dec: Str -> Decoded<M>, files: seq<Str>, rest: seq<Str>, a: seq<M>, b: seq<M>)
    requires Sound(dec) && ReadSegments(dec, files) == Some(a) && ReadSegments(dec, rest) == Some(b)
    ensures ReadSegments(dec, files + rest) == Some(a + b)
  {
    SegmentsAppend(dec, files, rest, a);
  }

  lemma OneSegment<M(!new)>(dec: Str -> Decoded<M>, file: Str)
    requires Sound(dec)
    ensures ReadSegments(dec, [file]) ==
            if DecodeAll(dec, file).verdict == Damaged then None else Some(DecodeAll(dec, file).ms)
  {
    assert [file][1..] == [] && ReadSegments(dec, []) == Some([]);
    assert DecodeAll(dec, file).ms + [] == DecodeAll(dec, file).ms;
  }

  lemma WholeSegment<M(!new)>(dec: Str -> Decoded<M>, enc: M -> Str, ms: seq<M>)
    requires Sound(dec) && AllFramed(dec, enc, ms)
    ensures ReadSegments(dec, [Encode(enc, ms)]) == Some(ms)
  {
    RoundTrip(dec, enc, ms);
    OneSegment(dec, Encode(enc, ms));
  }

  lemma FirstBoundary<M(!new)>(enc: M -> Str, files: seq<Str>, ms: seq<M>) returns (k: nat, rest: seq<Str>)
    requires files != [] && OnBoundaries(enc, files, ms)
    ensures rest == files[1..] && k <= |ms| && files[0] == Encode(enc, ms[..k]) && OnBoundaries(enc, rest, ms[k..])
  {
    k :| FirstEndsAt(enc, files, ms, k);
    rest := files[1..];
  }

  lemma {:induction false} BoundariesConcat<M(!new)>(enc: M -> Str, files: seq<Str>, ms: seq<M>)
    requires OnBoundaries(enc, files, ms)
    ensures Concat(files) == Encode(enc, ms)
  {
    if files != [] {
      var k, rest := FirstBoundary(enc, files, ms);
      BoundariesConcat(enc, rest, ms[k..]);
      EncodeAppend(enc, ms[..k], ms[k..]);
      assert ms == ms[..k] + ms[k..];
    }
  }

  lemma Rejoined<T>(s: seq<T>, k: nat)
    requires k <= |s|
    ensures s[..k] + s[k..] == s && (k == 1 ==> s[..k] == [s[0]])
  {
  }

  lemma {:induction false} BoundariesSuffice<M(!new)>(dec: Str -> Decoded<M>, enc: M -> Str,
                                                     files: seq<Str>, ms: seq<M>)
    requires Sound(dec) && AllFramed(dec, enc, ms) && OnBoundaries(enc, files, ms)
    ensures ReadSegments(dec, files) == Some(ms)
  {
    if files != [] {
      var k, rest := FirstBoundary(enc, files, ms);
      WholeSegment(dec, enc, ms[..k]);
      BoundariesSuffice(dec, enc, rest, ms[k..]);
      SegmentsJoin(dec, [files[0]], rest, ms[..k], ms[k..]);
      Rejoined(files, 1);
      Rejoined(ms, k);
    }
  }

  lemma {:induction false} StreamNeverExpands<M(!new)>(dec: Str -> Decoded<M>, enc: M -> Str, b: Str)
    requires Sound(dec) && NeverExpands(dec, enc)
    ensures |Encode(enc, DecodeAll(dec, b).ms)| <= DecodeAll(dec, b).stopped
    decreases |b|
  {
    if b != [] && dec(b).Ok? {
      assert SoundAt(dec, b) && NeverExpandsAt(dec, enc, b);
      StreamNeverExpands(dec, enc, b[dec(b).size..]);
      assert DecodeAll(dec, b).ms[1..] == DecodeAll(dec, b[dec(b).size..]).ms;
    }
  }

  /** The read re-encodes to no more bytes than the segments hold, and to as many only if none was cut short. */
  lemma {:induction false} SegmentsNeverExpand<M(!new)>(dec: Str -> Decoded<M>, enc: M -> Str, files: seq<Str>)
    requires Sound(dec) && NeverExpands(dec, enc) && ReadSegments(dec, files).Some?
    ensures |Encode(enc, ReadSegments(dec, files).value)| <= |Concat(files)|
    ensures |Encode(enc, ReadSegments(dec, files).value)| == |Concat(files)| ==>
              forall i :: 0 <= i < |files| ==> DecodeAll(dec, files[i]).verdict == Clean
  {
    if files != [] {
      SegmentsNeverExpand(dec, enc, files[1..]);
      StreamNeverExpands(dec, enc, files[0]);
      EncodeAppend(enc, DecodeAll(dec, files[0]).ms, ReadSegments(dec, files[1..]).value);
    }
  }

  lemma {:induction false} CleanImpliesBoundaries<M(!new)>(dec: Str -> Decoded<M>, enc: M -> Str,
                                                          files: seq<Str>, ms: seq<M>)
    requires Sound(dec) && NeverExpands(dec, enc) && Encode(enc, ms) == Concat(files)
    requires ReadSegments(dec, files) == Some(ms)
    requires forall i :: 0 <= i < |files| ==> DecodeAll(dec, files[i]).verdict == Clean
    ensures OnBoundaries(enc, files, ms)
  {
    if files != [] {
      var first, rest := DecodeAll(dec, files[0]).ms, ReadSegments(dec, files[1..]).value;
      var k := |first|;
      assert ms[..k] == first && ms[k..] == rest;
      StreamNeverExpands(dec, enc, files[0]);
      SegmentsNeverExpand(dec, enc, files[1..]);
      EncodeAppend(enc, first, rest);
      SplitFront(files[0], Concat(files[1..]), |files[0]|);
      SplitFront(Encode(enc, first), Encode(enc, rest), |files[0]|);
      CleanImpliesBoundaries(dec, enc, files[1..], rest);
      assert FirstEndsAt(enc, files, ms, k);
    }
  }

  /** Segments of a stream give the stream back exactly when every cut falls between two frames. */
  lemma SegmentsIff<M(!new)>(dec: Str -> Decoded<M>, enc: M -> Str, files: seq<Str>, ms: seq<M>)
    requires Sound(dec) && AllFramed(dec, enc, ms) && NeverExpands(dec, enc)
    requires Concat(files) == Encode(enc, ms)
    ensures ReadSegments(dec, files) == Some(ms) <==> OnBoundaries(enc, files, ms)
  {
    if OnBoundaries(enc, files, ms) {
      BoundariesSuffice(dec, enc, files, ms);
    } else if ReadSegments(dec, files) == Some(ms) {
      SegmentsNeverExpand(dec, enc, files);
      CleanImpliesBoundaries(dec, enc, files, ms);
    }
  }

  // ----- Segments of equal size -----

  /** A byte string in blocks of exactly size bytes, the last one possibly shorter. */
  function Blocks(b: Str, size: nat): (files: seq<Str>)
    requires size > 0
  {
    if |b| <= size then [b] else [b[..size]] + Blocks(b[size..], size)
  }

  /** Position pos of the stream lies between two frames. */
  ghost predicate IsBoundary<M(!new)>(enc: M -> Str, ms: seq<M>, pos: int) {
    exists k: nat :: EndsAt(enc, ms, k, pos)
  }

  /** Position pos is behind frame k. */
  ghost predicate EndsAt<M(!new)>(enc: M -> Str, ms: seq<M>, k: nat, pos: int) {
    k <= |ms| && |Encode(enc, ms[..k])| == pos
  }

  predicate IsMultiple(pos: int, size: nat)
    requires size > 0
    decreases pos
  {
    pos == 0 || (pos >= size && IsMultiple(pos - size, size))
  }

  /** Every multiple of size inside the stream lies between two frames. */
  ghost predicate CutsAligned<M(!new)>(enc: M -> Str, ms: seq<M>, size: nat)
    requires size > 0
  {
    AlignedUpTo(enc, ms, size, |Encode(enc, ms)|)
  }

  /** So far as it lies before position n. */
  ghost predicate AlignedUpTo<M(!new)>(enc: M -> Str, ms: seq<M>, size: nat, n: nat)
    requires size > 0
  {
    AlignedFrom(enc, ms, 0, size, n)
  }

  /** From position start on, every size bytes, so far as it lies before position n. */
  ghost predicate AlignedFrom<M(!new)>(enc: M -> Str, ms: seq<M>, start: nat, size: nat, n: nat)
    requires size > 0
  {
    forall pos :: start <= pos < n && IsMultiple(pos - start, size) ==> IsBoundary(enc, ms, pos)
  }

  lemma PrefixSize<M(!new)>(enc: M -> Str, ms: seq<M>, k: nat, j: nat)
    requires k <= |ms| && j <= |ms| - k
    ensures |Encode(enc, ms[..k + j])| == |Encode(enc, ms[..k])| + |Encode(enc, ms[k..][..j])|
  {
    assert ms[..k + j] == ms[..k] + ms[k..][..j];
    EncodeAppend(enc, ms[..k], ms[k..][..j]);
  }

  lemma BoundaryDown<M(!new)>(enc: M -> Str, ms: seq<M>, k: nat, p: nat)
    requires k <= |ms| && IsBoundary(enc, ms, |Encode(enc, ms[..k])| + p)
    ensures IsBoundary(enc, ms[k..], p)
  {
    var base := |Encode(enc, ms[..k])|;
    var j: nat :| EndsAt(enc, ms, j, base + p);
    if j <= k {
      PrefixSize(enc, ms, j, k - j);
      assert ms[k..][..0] == [] && EndsAt(enc, ms[k..], 0, p);
    } else {
      PrefixSize(enc, ms, k, j - k);
      assert EndsAt(enc, ms[k..], j - k, p);
    }
  }

  lemma BoundaryUp<M(!new)>(enc: M -> Str, ms: seq<M>, k: nat, p: nat)
    requires k <= |ms| && IsBoundary(enc, ms[k..], p)
    ensures IsBoundary(enc, ms, |Encode(enc, ms[..k])| + p)
  {
    var j: nat :| EndsAt(enc, ms[k..], j, p);
    PrefixSize(enc, ms, k, j);
    assert EndsAt(enc, ms, k + j, |Encode(enc, ms[..k])| + p);
  }

  lemma AlignedShift<M(!new)>(enc: M -> Str, ms: seq<M>, k: nat, size: nat)
    requires size > 0 && k <= |ms| && |Encode(enc, ms[..k])| == size
    ensures CutsAligned(enc, ms, size) <==> CutsAligned(enc, ms[k..], size)
  {
    assert ms == ms[..k] + ms[k..];
    EncodeAppend(enc, ms[..k], ms[k..]);
    if CutsAligned(enc, ms, size) {
      forall p | 0 <= p < |Encode(enc, ms[k..])| && IsMultiple(p, size) ensures IsBoundary(enc, ms[k..], p) {
        assert IsMultiple(size + p, size) && IsBoundary(enc, ms, size + p);
        BoundaryDown(enc, ms, k, p);
      }
    }
    if CutsAligned(enc, ms[k..], size) {
      forall pos | 0 <= pos < |Encode(enc, ms)| && IsMultiple(pos, size) ensures IsBoundary(enc, ms, pos) {
        if pos == 0 {
          assert EndsAt(enc, ms, 0, 0);
        } else {
          assert pos >= size;
          BoundaryUp(enc, ms, k, pos - size);
        }
      }
    }
  }

  lemma SplitAtFrame<M(!new)>(enc: M -> Str, ms: seq<M>, k: nat)
    requires k <= |ms|
    ensures var e := Encode(enc, ms[..k]);
            |e| <= |Encode(enc, ms)| && Encode(enc, ms)[..|e|] == e && Encode(enc, ms)[|e|..] == Encode(enc, ms[k..])
  {
    assert ms == ms[..k] + ms[k..];
    EncodeAppend(enc, ms[..k], ms[k..]);
    SplitFront(Encode(enc, ms[..k]), Encode(enc, ms[k..]), |Encode(enc, ms[..k])|);
  }

  lemma {:induction false} BlocksOnBoundariesIff<M(!new)>(enc: M -> Str, ms: seq<M>, size: nat)
    requires size > 0
    ensures OnBoundaries(enc, Blocks(Encode(enc, ms), size), ms) <==> CutsAligned(enc, ms, size)
    decreases |Encode(enc, ms)|
  {
    var b := Encode(enc, ms);
    var files := Blocks(b, size);
    if |b| <= size {
      assert ms[..|ms|] == ms && ms[|ms|..] == [] && files[1..] == [];
      assert FirstEndsAt(enc, files, ms, |ms|);
      assert EndsAt(enc, ms, 0, 0);
    } else {
      assert files[1..] == Blocks(b[size..], size);
      if OnBoundaries(enc, files, ms) {
        var k, rest := FirstBoundary(enc, files, ms);
        SplitAtFrame(enc, ms, k);
        BlocksOnBoundariesIff(enc, ms[k..], size);
        AlignedShift(enc, ms, k, size);
      }
      if CutsAligned(enc, ms, size) {
        assert IsMultiple(size - size, size) && IsBoundary(enc, ms, size);
        var k: nat :| EndsAt(enc, ms, k, size);
        SplitAtFrame(enc, ms, k);
        BlocksOnBoundariesIff(enc, ms[k..], size);
        AlignedShift(enc, ms, k, size);
        assert FirstEndsAt(enc, files, ms, k);
      }
    }
  }

  // ----- A stream that was cut short -----

  lemma JoinFront<T>(s: seq<T>, k: nat, j: nat)
    requires k + j <= |s|
    ensures s[..k] + s[k..][..j] == s[..k + j]
  {
  }

  /** The first k frames, then the whole ones of the next n bytes. */
  lemma WholeJoin<M>(enc: M -> Str, ms: seq<M>, k: nat, n: nat)
    requires k <= |ms|
    ensures ms[..k] + ms[k..][..Whole(enc, ms[k..], n)] == ms[..Whole(enc, ms, |Encode(enc, ms[..k])| + n)]
  {
    WholeShift(enc, ms, k, n);
    JoinFront(ms, k, Whole(enc, ms[k..], n));
  }

  /** Whole segments followed by one that was cut short give all whole frames. */
  lemma LastSegmentCut<M(!new)>(dec: Str -> Decoded<M>, enc: M -> Str, files: seq<Str>, ms: seq<M>, k: nat, n: nat)
    requires Sound(dec) && AllFramed(dec, enc, ms) && k <= |ms|
    requires OnBoundaries(enc, files, ms[..k]) && n <= |Encode(enc, ms[k..])|
    ensures ReadSegments(dec, files + [Encode(enc, ms[k..])[..n]])
            == Some(ms[..Whole(enc, ms, |Encode(enc, ms[..k])| + n)])
  {
    var last := Encode(enc, ms[k..])[..n];
    BoundariesSuffice(dec, enc, files, ms[..k]);
    CutReadsWholePrefix(dec, enc, ms[k..], n);
    OneSegment(dec, last);
    SegmentsJoin(dec, files, [last], ms[..k], ms[k..][..Whole(enc, ms[k..], n)]);
    WholeJoin(enc, ms, k, n);
  }

  lemma LastPart(all: Str, front: Str, tail: Str, last: Str, n: nat)
    requires |front| <= |all| && all[..|front|] == front && all[|front|..] == tail
    requires n <= |all| && front + last == all[..n]
    ensures |front| <= n && last == tail[..n - |front|]
  {
    assert all == front + tail && |front + last| == n;
    SplitFront(front, tail, n);
    SplitFront(front, last, 0);
    SplitFront(front, tail[..n - |front|], 0);
  }

  /** The same, told from the bytes in all segments. */
  lemma LastSegmentReads<M(!new)>(dec: Str -> Decoded<M>, enc: M -> Str, files: seq<Str>, last: Str, ms: seq<M>,
                                  k: nat, n: nat)
    requires Sound(dec) && AllFramed(dec, enc, ms) && k <= |ms| && n <= |Encode(enc, ms)|
    requires OnBoundaries(enc, files, ms[..k]) && Concat(files + [last]) == Encode(enc, ms)[..n]
    ensures ReadSegments(dec, files + [last]) == Some(ms[..Whole(enc, ms, n)])
  {
    var front := Encode(enc, ms[..k]);
    BoundariesConcat(enc, files, ms[..k]);
    ConcatSnoc(files, last);
    SplitAtFrame(enc, ms, k);
    LastPart(Encode(enc, ms), front, Encode(enc, ms[k..]), last, n);
    LastSegmentCut(dec, enc, files, ms, k, n - |front|);
  }

  lemma AlignedDown<M(!new)>(enc: M -> Str, ms: seq<M>, k: nat, size: nat, n: nat)
    requires size > 0 && k <= |ms| && |Encode(enc, ms[..k])| == size && AlignedUpTo(enc, ms, size, size + n)
    ensures AlignedUpTo(enc, ms[k..], size, n)
  {
    forall p | 0 <= p < n && IsMultiple(p, size) ensures IsBoundary(enc, ms[k..], p) {
      assert IsMultiple(size + p, size) && IsBoundary(enc, ms, size + p);
      BoundaryDown(enc, ms, k, p);
    }
  }

  /** The first block ends between two frames, and the other blocks are those of the frames behind it. */
  lemma BlockBoundary<M(!new)>(enc: M -> Str, ms: seq<M>, size: nat, n: nat) returns (k: nat, rest: seq<Str>)
    requires 0 < size < n <= |Encode(enc, ms)| && AlignedUpTo(enc, ms, size, n)
    ensures k <= |ms| && |Encode(enc, ms[..k])| == size && AlignedUpTo(enc, ms[k..], size, n - size)
    ensures n - size <= |Encode(enc, ms[k..])| && rest == Blocks(Encode(enc, ms[k..])[..n - size], size)
    ensures Blocks(Encode(enc, ms)[..n], size) == [Encode(enc, ms[..k])] + rest
  {
    assert IsMultiple(size - size, size) && IsBoundary(enc, ms, size);
    k :| EndsAt(enc, ms, k, size);
    SplitAtFrame(enc, ms, k);
    AlignedDown(enc, ms, k, size, n - size);
    BlocksCons(Encode(enc, ms), n, size);
    rest := Blocks(Encode(enc, ms[k..])[..n - size], size);
  }

  lemma BlocksCons(b: Str, n: nat, size: nat)
    requires 0 < size < n <= |b|
    ensures Blocks(b[..n], size) == [b[..size]] + Blocks(b[size..][..n - size], size)
  {
    assert b[..n][..size] == b[..size] && b[..n][size..] == b[size..][..n - size];
  }

  lemma BoundaryCons<M(!new)>(enc: M -> Str, ms: seq<M>, k: nat, rest: seq<Str>)
    requires k <= |ms| && OnBoundaries(enc, rest, ms[k..])
    ensures OnBoundaries(enc, [Encode(enc, ms[..k])] + rest, ms)
  {
    var files := [Encode(enc, ms[..k])] + rest;
    assert files[1..] == rest;
    assert FirstEndsAt(enc, files, ms, k);
  }

  lemma WholeOnBoundaries<M(!new)>(enc: M -> Str, ms: seq<M>)
    ensures OnBoundaries(enc, [Encode(enc, ms)], ms)
  {
    assert ms[..|ms|] == ms && ms[|ms|..] == [] && OnBoundaries(enc, [], ms[|ms|..]);
    BoundaryCons(enc, ms, |ms|, []);
    assert [Encode(enc, ms)] + [] == [Encode(enc, ms)];
  }

  /** The last segment may grow by whole frames. */
  lemma {:induction false} LastSegmentGrows<M(!new)>(enc: M -> Str, files: seq<Str>, last: Str,
                                                    ms: seq<M>, more: seq<M>)
    requires OnBoundaries(enc, files + [last], ms)
    ensures OnBoundaries(enc, files + [last + Encode(enc, more)], ms + more)
  {
    var k, rest := FirstBoundary(enc, files + [last], ms);
    var grown := [last + Encode(enc, more)];
    if files == [] {
      EncodeAppend(enc, ms, more);
      WholeOnBoundaries(enc, ms + more);
      assert files + grown == grown && rest == [] && ms[..k] == ms;
    } else {
      assert rest == files[1..] + [last];
      LastSegmentGrows(enc, files[1..], last, ms[k..], more);
      FrontOfJoin(ms, more, k);
      BoundaryCons(enc, ms + more, k, files[1..] + grown);
      assert files + grown == [files[0]] + (files[1..] + grown);
    }
  }

  lemma FrontOfJoin<T>(a: seq<T>, b: seq<T>, k: nat)
    requires k <= |a|
    ensures (a + b)[..k] == a[..k] && (a + b)[k..] == a[k..] + b
  {
  }

  /** All segments but the last end between two frames, if they all do. */
  lemma {:induction false} AllButLast<M(!new)>(enc: M -> Str, files: seq<Str>, last: Str, ms: seq<M>) returns (k: nat)
    requires OnBoundaries(enc, files + [last], ms)
    ensures k <= |ms| && OnBoundaries(enc, files, ms[..k])
  {
    if files == [] {
      k := 0;
    } else {
      var i, rest := FirstBoundary(enc, files + [last], ms);
      assert rest == files[1..] + [last];
      var j := AllButLast(enc, files[1..], last, ms[i..]);
      k := i + j;
      assert ms[..k][..i] == ms[..i] && ms[..k][i..] == ms[i..][..j];
      BoundaryCons(enc, ms[..k], i, files[1..]);
      assert files == [files[0]] + files[1..];
    }
  }

  // ----- Cut only in the last segment -----

  ghost predicate AllEmpty(files: seq<Str>) { forall i :: 0 <= i < |files| ==> files[i] == [] }

  lemma {:induction false} EmptySegments<M(!new)>(dec: Str -> Decoded<M>, files: seq<Str>)
    requires Sound(dec) && AllEmpty(files)
    ensures ReadSegments(dec, files) == Some([]) && Concat(files) == []
  {
    if files != [] {
      EmptySegments(dec, files[1..]);
      assert DecodeAll(dec, []) == Log([], Clean, 0);
      var none: seq<M> := [];
      assert ReadSegments(dec, files) == Onto(none, Some(none)) && none + none == none;
    }
  }

  /** m segments with the first i frames, one segment behind them, and nothing in those behind that. */
  ghost predicate LateAt<M(!new)>(enc: M -> Str, files: seq<Str>, ms: seq<M>, m: nat, i: nat) {
    m < |files| && i <= |ms| && OnBoundaries(enc, files[..m], ms[..i]) && AllEmpty(files[m + 1..])
  }

  /** The segments hold the first n bytes of the stream; only the last one with anything in it may end in a frame. */
  ghost predicate LateCut<M(!new)>(enc: M -> Str, files: seq<Str>, ms: seq<M>, n: nat) {
    && n <= |Encode(enc, ms)| && Concat(files) == Encode(enc, ms)[..n]
    && exists m: nat, i: nat :: LateAt(enc, files, ms, m, i)
  }

  lemma SplitLate<M(!new)>(dec: Str -> Decoded<M>, files: seq<Str>, m: nat)
    requires Sound(dec) && m < |files| && AllEmpty(files[m + 1..])
    ensures files == files[..m] + [files[m]] + files[m + 1..]
    ensures Concat(files) == Concat(files[..m] + [files[m]]) && ReadSegments(dec, files[m + 1..]) == Some([])
  {
    assert files == files[..m] + [files[m]] + files[m + 1..];
    EmptySegments(dec, files[m + 1..]);
    ConcatAppend(files[..m] + [files[m]], files[m + 1..]);
    Unit(Concat(files[..m] + [files[m]]));
  }

  /** They give all whole frames. */
  lemma LateCutReads<M(!new)>(dec: Str -> Decoded<M>, enc: M -> Str, files: seq<Str>, ms: seq<M>, n: nat)
    requires Sound(dec) && AllFramed(dec, enc, ms) && LateCut(enc, files, ms, n)
    ensures ReadSegments(dec, files) == Some(ms[..Whole(enc, ms, n)])
  {
    var m: nat, i: nat :| LateAt(enc, files, ms, m, i);
    SplitLate(dec, files, m);
    LastSegmentReads(dec, enc, files[..m], files[m], ms, i, n);
    var whole := ms[..Whole(enc, ms, n)];
    SegmentsJoin(dec, files[..m] + [files[m]], files[m + 1..], whole, []);
    assert whole + [] == whole;
  }

  lemma ConsJoin<T>(a: seq<T>, b: seq<T>)
    requires a != []
    ensures a + b == [a[0]] + (a[1..] + b)
  {
  }

  lemma {:induction false} BoundariesJoin<M(!new)>(enc: M -> Str, a: seq<Str>, b: seq<Str>, ms: seq<M>, more: seq<M>)
    requires OnBoundaries(enc, a, ms) && OnBoundaries(enc, b, more)
    ensures OnBoundaries(enc, a + b, ms + more)
  {
    if a == [] {
      assert a + b == b && ms + more == more;
    } else {
      var k, rest := FirstBoundary(enc, a, ms);
      BoundariesJoin(enc, rest, b, ms[k..], more);
      FrontOfJoin(ms, more, k);
      BoundaryCons(enc, ms + more, k, rest + b);
      ConsJoin(a, b);
    }
  }

  lemma LateAtBehind<M(!new)>(enc: M -> Str, front: seq<Str>, files: seq<Str>, ms: seq<M>, k: nat, m: nat, i: nat)
    requires k <= |ms| && OnBoundaries(enc, front, ms[..k]) && LateAt(enc, files, ms[k..], m, i)
    ensures LateAt(enc, front + files, ms, |front| + m, k + i)
  {
    BoundariesJoin(enc, front, files[..m], ms[..k], ms[k..][..i]);
    JoinFront(ms, k, i);
    assert (front + files)[..|front| + m] == front + files[..m];
    assert (front + files)[|front| + m + 1..] == files[m + 1..];
  }

  /** Whole segments before segments that are cut late. */
  lemma LateBehind<M(!new)>(enc: M -> Str, front: seq<Str>, files: seq<Str>, ms: seq<M>, k: nat, n: nat)
    requires k <= |ms| && OnBoundaries(enc, front, ms[..k]) && LateCut(enc, files, ms[k..], n)
    ensures LateCut(enc, front + files, ms, |Encode(enc, ms[..k])| + n)
  {
    var m: nat, i: nat :| LateAt(enc, files, ms[k..], m, i);
    LateAtBehind(enc, front, files, ms, k, m, i);
    var head, tail := Encode(enc, ms[..k]), Encode(enc, ms[k..]);
    BoundariesConcat(enc, front, ms[..k]);
    ConcatAppend(front, files);
    SplitAtFrame(enc, ms, k);
    assert Encode(enc, ms) == head + tail;
    SplitFront(head, tail, |head| + n);
  }

  /** An empty segment more changes nothing. */
  lemma LateAndEmpty<M(!new)>(enc: M -> Str, files: seq<Str>, ms: seq<M>, n: nat)
    requires LateCut(enc, files, ms, n)
    ensures LateCut(enc, files + [[]], ms, n)
  {
    var m: nat, i: nat :| LateAt(enc, files, ms, m, i);
    assert (files + [[]])[..m] == files[..m] && (files + [[]])[m + 1..] == files[m + 1..] + [[]];
    assert LateAt(enc, files + [[]], ms, m, i);
    ConcatSnoc(files, []);
    Unit(Concat(files));
  }

  lemma OneIsLate<M(!new)>(enc: M -> Str, ms: seq<M>, n: nat)
    requires n <= |Encode(enc, ms)|
    ensures LateCut(enc, [Encode(enc, ms)[..n]], ms, n)
  {
    var file := Encode(enc, ms)[..n];
    var files: seq<Str> := [file];
    assert ms[..0] == [] && files[..0] == [] && files[1..] == [];
    assert LateAt(enc, files, ms, 0, 0);
    ConcatSnoc([], file);
    Unit(file);
    assert [] + [file] == [file];
  }

  /** The blocks of a stream that was cut after n bytes, if no earlier block cuts a frame. */
  lemma {:induction false} BlocksAreLate<M(!new)>(enc: M -> Str, ms: seq<M>, size: nat, n: nat)
    requires size > 0 && n <= |Encode(enc, ms)| && AlignedUpTo(enc, ms, size, n)
    ensures LateCut(enc, Blocks(Encode(enc, ms)[..n], size), ms, n)
    decreases n
  {
    if n <= size {
      OneIsLate(enc, ms, n);
    } else {
      var k, rest := BlockBoundary(enc, ms, size, n);
      BlocksAreLate(enc, ms[k..], size, n - size);
      WholeOnBoundaries(enc, ms[..k]);
      LateBehind(enc, [Encode(enc, ms[..k])], rest, ms, k, n - size);
    }
  }

  /** So they give all whole frames. */
  lemma CutBlocksRead<M(!new)>(dec: Str -> Decoded<M>, enc: M -> Str, ms: seq<M>, size: nat, n: nat)
    requires Sound(dec) && AllFramed(dec, enc, ms) && size > 0
    requires n <= |Encode(enc, ms)| && AlignedUpTo(enc, ms, size, n)
    ensures ReadSegments(dec, Blocks(Encode(enc, ms)[..n], size)) == Some(ms[..Whole(enc, ms, n)])
  {
    BlocksAreLate(enc, ms, size, n);
    LateCutReads(dec, enc, Blocks(Encode(enc, ms)[..n], size), ms, n);
  }
}
