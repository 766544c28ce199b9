/**
  Streams of self-delimiting frames, for any frame decoder.

  A decoder looks at the front of a buffer and answers with one frame and its size, "incomplete" or
  "corrupt". The log reader, the client's response reader and the snapshot of a cut log are all
  instances; their decoders are passed in as function values.
*/
module Framing {
  import opened Bytes

  datatype Decoded<+M> = Ok(m: M, size: nat) | Incomplete | Corrupt
  datatype Verdict = Clean | Truncated | Damaged

  /** Everything decoded up to the first byte that does not decode. */
  datatype Log<+M> = Log(ms: seq<M>, verdict: Verdict, stopped: nat)

  /** A decoded frame is non-empty and lies inside the buffer. */
  ghost predicate SoundAt<M>(dec: Str -> Decoded<M>, b: Str) {
    dec(b).Ok? ==> 0 < dec(b).size <= |b|
  }

  ghost predicate Sound<M(!new)>(dec: Str -> Decoded<M>) {
    forall b :: SoundAt(dec, b)
  }

  /** A verdict other than "incomplete" does not change when more bytes arrive. */
  ghost predicate StableAt<M>(dec: Str -> Decoded<M>, b: Str, more: Str) {
    !dec(b).Incomplete? ==> dec(b + more) == dec(b)
  }

  ghost predicate Stable<M(!new)>(dec: Str -> Decoded<M>) {
    forall b, more :: StableAt(dec, b, more)
  }

  /** Stability alone makes every strict prefix of a frame incomplete. */
  lemma CutFromStable<M(!new)>(dec: Str -> Decoded<M>, e: Str, m: M, n: nat)
    requires Sound(dec) && Stable(dec) && dec(e) == Ok(m, |e|) && n < |e|
    ensures dec(e[..n]).Incomplete?
  {
    assert SoundAt(dec, e[..n]) && StableAt(dec, e[..n], e[n..]);
    assert e[..n] + e[n..] == e;
  }

  /** Frame m is read back whole when followed by rest. */
  ghost predicate ReadsBack<M>(dec: Str -> Decoded<M>, enc: M -> Str, m: M, rest: Str) {
    dec(enc(m) + rest) == Ok(m, |enc(m)|)
  }

  /** A non-empty cut of frame m is incomplete. */
  ghost predicate CutTolerated<M>(dec: Str -> Decoded<M>, enc: M -> Str, m: M, n: nat) {
    0 < n < |enc(m)| ==> dec(enc(m)[..n]).Incomplete?
  }

  ghost predicate Framed<M(!new)>(dec: Str -> Decoded<M>, enc: M -> Str, m: M) {
    && enc(m) != []
    && (forall rest :: ReadsBack(dec, enc, m, rest))
    && (forall n: nat :: CutTolerated(dec, enc, m, n))
  }

  ghost predicate AllFramed<M(!new)>(dec: Str -> Decoded<M>, enc: M -> Str, ms: seq<M>) {
    forall i :: 0 <= i < |ms| ==> Framed(dec, enc, ms[i])
  }

  function Encode<M>(enc: M -> Str, ms: seq<M>): Str {
    if ms == [] then [] else enc(ms[0]) + Encode(enc, ms[1..])
  }

  function Prepend<M>(m: M, n: nat, l: Log<M>): Log<M> {
    Log([m] + l.ms, l.verdict, n + l.stopped)
  }

  function Follow<M>(l: Log<M>, r: Log<M>): Log<M> {
    Log(l.ms + r.ms, r.verdict, l.stopped + r.stopped)
  }

  ghost function DecodeAll<M(!new)>(dec: Str -> Decoded<M>, b: Str): (l: Log<M>)
    requires Sound(dec)
    ensures l.stopped <= |b|
    ensures l.stopped == |b| <==> l.verdict == Clean
    decreases |b|
  {
    if b == [] then Log([], Clean, 0)
    else
      assert SoundAt(dec, b);
      match dec(b)
      case Incomplete => Log([], Truncated, 0)
      case Corrupt => Log([], Damaged, 0)
      case Ok(m, n) => Prepend(m, n, DecodeAll(dec, b[n..]))
  }

  lemma PrependFollow<M>(m: M, n: nat, l: Log<M>, r: Log<M>)
    ensures Prepend(m, n, Follow(l, r)) == Follow(Prepend(m, n, l), r)
  {
    assert [m] + (l.ms + r.ms) == [m] + l.ms + r.ms;
  }

  lemma DecodeFront<M(!new)>(dec: Str -> Decoded<M>, e: Str, tail: Str, m: M)
    requires Sound(dec) && e != [] && dec(e + tail) == Ok(m, |e|)
    ensures DecodeAll(dec, e + tail) == Prepend(m, |e|, DecodeAll(dec, tail))
  {
    assert (e + tail)[|e|..] == tail;
  }

  ghost predicate Resumes<M(!new)>(dec: Str -> Decoded<M>, b: Str, more: Str)
    requires Sound(dec)
  {
    DecodeAll(dec, b + more) ==
    Follow(DecodeAll(dec, b), DecodeAll(dec, b[DecodeAll(dec, b).stopped..] + more))
  }

  lemma ResumeStep<M(!new)>(dec: Str -> Decoded<M>, e: Str, tail: Str, more: Str, m: M)
    requires Sound(dec) && e != []
    requires dec(e + tail) == dec(e + (tail + more)) == Ok(m, |e|)
    requires Resumes(dec, tail, more)
    ensures Resumes(dec, e + tail, more)
  {
    DecodeFront(dec, e, tail, m);
    DecodeFront(dec, e, tail + more, m);
    Assoc(e, tail, more);
    var l := DecodeAll(dec, tail);
    assert (e + tail)[|e| + l.stopped..] == tail[l.stopped..];
    PrependFollow(m, |e|, l, DecodeAll(dec, tail[l.stopped..] + more));
  }

  /** An undamaged stream followed by more bytes: decoding resumes where the first part stopped. */
  lemma {:induction false} Resume<M(!new)>(dec: Str -> Decoded<M>, b: Str, more: Str)
    requires Sound(dec) && Stable(dec)
    requires DecodeAll(dec, b).verdict != Damaged
    ensures Resumes(dec, b, more)
    decreases |b|
  {
    if b != [] && dec(b).Ok? {
      assert SoundAt(dec, b) && StableAt(dec, b, more);
      var m, n := dec(b).m, dec(b).size;
      assert b == b[..n] + b[n..];
      Resume(dec, b[n..], more);
      Assoc(b[..n], b[n..], more);
      ResumeStep(dec, b[..n], b[n..], more, m);
    } else {
      assert b[0..] == b && DecodeAll(dec, b).ms == [] && DecodeAll(dec, b).stopped == 0;
      EmptyFollow(DecodeAll(dec, b), DecodeAll(dec, b + more));
    }
  }

  lemma EmptyFollow<M>(l: Log<M>, r: Log<M>)
    requires l.ms == [] && l.stopped == 0
    ensures Follow(l, r) == r
  {
  }

  /** Bytes after the damage change nothing. */
  lemma {:induction false} DamageIsFinal<M(!new)>(dec: Str -> Decoded<M>, b: Str, more: Str)
    requires Sound(dec) && Stable(dec)
    requires DecodeAll(dec, b).verdict == Damaged
    ensures DecodeAll(dec, b + more) == DecodeAll(dec, b)
    decreases |b|
  {
    assert SoundAt(dec, b) && StableAt(dec, b, more);
    if dec(b).Ok? {
      DamageIsFinal(dec, b[dec(b).size..], more);
      assert (b + more)[dec(b).size..] == b[dec(b).size..] + more;
    }
  }

  lemma {:induction false} EncodeAppend<M>(enc: M -> Str, a: seq<M>, b: seq<M>)
    ensures Encode(enc, a + b) == Encode(enc, a) + Encode(enc, b)
  {
    if a == [] {
      assert a + b == b;
      Unit(Encode(enc, b));
    } else {
      EncodeAppend(enc, a[1..], b);
      assert (a + b)[1..] == a[1..] + b;
      Assoc(enc(a[0]), Encode(enc, a[1..]), Encode(enc, b));
    }
  }

  lemma EncodeSnoc<M>(enc: M -> Str, a: seq<M>, m: M)
    ensures Encode(enc, a + [m]) == Encode(enc, a) + enc(m)
  {
    EncodeAppend(enc, a, [m]);
    assert [m][1..] == [];
    assert Encode(enc, [m]) == enc(m) + Encode(enc, []);
  }

  /** Frames followed by anything: the frames come out first, in order. */
  ghost predicate ReadsFirst<M(!new)>(dec: Str -> Decoded<M>, b: Str, ms: seq<M>, rest: Str)
    requires Sound(dec)
  {
    DecodeAll(dec, b + rest) == Follow(Log(ms, Clean, |b|), DecodeAll(dec, rest))
  }

  lemma ReadsFirstStep<M(!new)>(dec: Str -> Decoded<M>, e: Str, b: Str, m: M, ms: seq<M>, rest: Str)
    requires Sound(dec) && e != [] && dec(e + (b + rest)) == Ok(m, |e|)
    requires ReadsFirst(dec, b, ms, rest)
    ensures ReadsFirst(dec, e + b, [m] + ms, rest)
  {
    Assoc(e, b, rest);
    DecodeFront(dec, e, b + rest, m);
    PrependFollow(m, |e|, Log(ms, Clean, |b|), DecodeAll(dec, rest));
  }

  lemma {:induction false} DecodeFrames<M(!new)>(dec: Str -> Decoded<M>, enc: M -> Str, ms: seq<M>, rest: Str)
    requires Sound(dec) && AllFramed(dec, enc, ms)
    ensures ReadsFirst(dec, Encode(enc, ms), ms, rest)
  {
    if ms == [] {
      Unit(rest);
      EmptyFollow(Log([], Clean, 0), DecodeAll(dec, rest));
    } else {
      DecodeFrames(dec, enc, ms[1..], rest);
      assert Framed(dec, enc, ms[0]) && ReadsBack(dec, enc, ms[0], Encode(enc, ms[1..]) + rest);
      ReadsFirstStep(dec, enc(ms[0]), Encode(enc, ms[1..]), ms[0], ms[1..], rest);
      assert [ms[0]] + ms[1..] == ms;
    }
  }

  lemma RoundTrip<M(!new)>(dec: Str -> Decoded<M>, enc: M -> Str, ms: seq<M>)
    requires Sound(dec) && AllFramed(dec, enc, ms)
    ensures DecodeAll(dec, Encode(enc, ms)) == Log(ms, Clean, |Encode(enc, ms)|)
  {
    DecodeFrames(dec, enc, ms, []);
    Unit(Encode(enc, ms));
  }

  /** How many leading frames fit whole into n bytes. */
  function Whole<M>(enc: M -> Str, ms: seq<M>, n: nat): (k: nat)
    ensures k <= |ms|
  {
    if ms == [] || n < |enc(ms[0])| then 0 else 1 + Whole(enc, ms[1..], n - |enc(ms[0])|)
  }

  /** Whole is the length of the longest prefix whose encoding fits. */
  lemma {:induction false} WholeIsLongest<M>(enc: M -> Str, ms: seq<M>, n: nat, j: nat)
    requires j <= |ms|
    ensures |Encode(enc, ms[..j])| <= n <==> j <= Whole(enc, ms, n)
  {
    if j > 0 {
      assert ms[..j][1..] == ms[1..][..j - 1];
      if n >= |enc(ms[0])| {
        WholeIsLongest(enc, ms[1..], n - |enc(ms[0])|, j - 1);
      }
    }
  }

  lemma WholeBounds<M>(enc: M -> Str, ms: seq<M>, n: nat)
    ensures var k := Whole(enc, ms, n);
            |Encode(enc, ms[..k])| <= n && (k < |ms| ==> n < |Encode(enc, ms[..k + 1])|)
  {
    var k := Whole(enc, ms, n);
    WholeIsLongest(enc, ms, n, k);
    if k < |ms| { WholeIsLongest(enc, ms, n, k + 1); }
  }

  /** Behind k whole frames the count goes on with the rest. */
  lemma {:induction false} WholeShift<M>(enc: M -> Str, ms: seq<M>, k: nat, n: nat)
    requires k <= |ms|
    ensures Whole(enc, ms, |Encode(enc, ms[..k])| + n) == k + Whole(enc, ms[k..], n)
    decreases k
  {
    if k == 0 {
      assert ms[..0] == [] && ms[0..] == ms;
    } else {
      assert ms[..k][1..] == ms[1..][..k - 1] && ms[1..][k - 1..] == ms[k..];
      WholeShift(enc, ms[1..], k - 1, n);
    }
  }

  lemma EncodeAround<M>(enc: M -> Str, ms: seq<M>, k: nat)
    requires k < |ms|
    ensures Encode(enc, ms) == Encode(enc, ms[..k]) + (enc(ms[k]) + Encode(enc, ms[k + 1..]))
    ensures |Encode(enc, ms[..k + 1])| == |Encode(enc, ms[..k])| + |enc(ms[k])|
  {
    assert ms == ms[..k] + ms[k..] && ms[..k + 1] == ms[..k] + [ms[k]];
    assert ms[k..][1..] == ms[k + 1..];
    EncodeAppend(enc, ms[..k], ms[k..]);
    EncodeSnoc(enc, ms[..k], ms[k]);
  }

  /** The frames that fit, and the cut frame after them. */
  lemma CutSplits<M>(enc: M -> Str, ms: seq<M>, n: nat)
    requires n <= |Encode(enc, ms)|
    ensures var k := Whole(enc, ms, n); var front := Encode(enc, ms[..k]);
            && |front| <= n
            && (k == |ms| ==> Encode(enc, ms)[..n] == front)
            && (k < |ms| ==> n - |front| < |enc(ms[k])| && Encode(enc, ms)[..n] == front + enc(ms[k])[..n - |front|])
  {
    var k := Whole(enc, ms, n);
    var front := Encode(enc, ms[..k]);
    WholeIsLongest(enc, ms, n, k);
    if k < |ms| {
      WholeIsLongest(enc, ms, n, k + 1);
      EncodeAround(enc, ms, k);
      var e, tail := enc(ms[k]), Encode(enc, ms[k + 1..]);
      SplitFront(front, e + tail, n);
      SplitFront(e, tail, n - |front|);
    } else {
      assert ms[..k] == ms;
    }
  }

  /** Frames followed by torn bytes that more bytes do not make into a frame. */
  lemma FramesThenStop<M(!new)>(dec: Str -> Decoded<M>, enc: M -> Str, ms: seq<M>, torn: Str, more: Str)
    requires Sound(dec) && AllFramed(dec, enc, ms) && torn != [] && !dec(torn + more).Ok?
    ensures var v := if dec(torn + more).Corrupt? then Damaged else Truncated;
            DecodeAll(dec, Encode(enc, ms) + torn + more) == Log(ms, v, |Encode(enc, ms)|)
  {
    var b := torn + more;
    Assoc(Encode(enc, ms), torn, more);
    DecodeFrames(dec, enc, ms, b);
    StopsAtOnce(dec, b);
    FollowNothing(ms, |Encode(enc, ms)|, if dec(b).Corrupt? then Damaged else Truncated);
  }

  lemma FramesThenCut<M(!new)>(dec: Str -> Decoded<M>, enc: M -> Str, ms: seq<M>, tail: Str)
    requires Sound(dec) && AllFramed(dec, enc, ms)
    requires tail != [] ==> dec(tail).Incomplete?
    ensures var whole := |Encode(enc, ms)|;
            DecodeAll(dec, Encode(enc, ms) + tail) == Log(ms, if tail == [] then Clean else Truncated, whole)
  {
    DecodeFrames(dec, enc, ms, tail);
    assert ms + [] == ms;
  }

  /** A stream cut after any number of bytes reads back as its longest whole prefix, never as damaged. */
  lemma CutReadsWholePrefix<M(!new)>(dec: Str -> Decoded<M>, enc: M -> Str, ms: seq<M>, n: nat)
    requires Sound(dec) && AllFramed(dec, enc, ms) && n <= |Encode(enc, ms)|
    ensures var k := Whole(enc, ms, n); var whole := |Encode(enc, ms[..k])|;
            && whole <= n
            && DecodeAll(dec, Encode(enc, ms)[..n]) == Log(ms[..k], if whole == n then Clean else Truncated, whole)
  {
    var k := Whole(enc, ms, n);
    var front := Encode(enc, ms[..k]);
    CutSplits(enc, ms, n);
    if k < |ms| {
      var tail := enc(ms[k])[..n - |front|];
      assert Framed(dec, enc, ms[k]) && CutTolerated(dec, enc, ms[k], n - |front|);
      FramesThenCut(dec, enc, ms[..k], tail);
    } else {
      RoundTrip(dec, enc, ms[..k]);
    }
  }

  // ----- Decoding in steps -----

  /** The frames in acc come from p[..off]; the rest of p is still to be read. */
  ghost predicate UpTo<M(!new)>(dec: Str -> Decoded<M>, p: Str, acc: seq<M>, off: nat)
    requires Sound(dec)
  {
    off <= |p| && DecodeAll(dec, p) == Follow(Log(acc, Clean, off), DecodeAll(dec, p[off..]))
  }

  lemma UpToStart<M(!new)>(dec: Str -> Decoded<M>, p: Str)
    requires Sound(dec)
    ensures UpTo(dec, p, [], 0)
  {
    assert p[0..] == p;
    EmptyFollow(Log([], Clean, 0), DecodeAll(dec, p));
  }

  lemma FollowPrepend<M>(acc: seq<M>, off: nat, m: M, n: nat, r: Log<M>)
    ensures Follow(Log(acc, Clean, off), Prepend(m, n, r)) == Follow(Log(acc + [m], Clean, off + n), r)
  {
    assert acc + ([m] + r.ms) == acc + [m] + r.ms;
  }

  lemma UpToStep<M(!new)>(dec: Str -> Decoded<M>, p: Str, acc: seq<M>, off: nat, m: M, n: nat)
    requires Sound(dec) && UpTo(dec, p, acc, off) && off < |p| && dec(p[off..]) == Ok(m, n)
    ensures off + n <= |p| && UpTo(dec, p, acc + [m], off + n)
  {
    assert SoundAt(dec, p[off..]);
    assert p[off..][n..] == p[off + n..];
    FollowPrepend(acc, off, m, n, DecodeAll(dec, p[off + n..]));
  }

  /** Torn bytes that more bytes make into frame m of n bytes. */
  ghost predicate Completes<M>(dec: Str -> Decoded<M>, torn: Str, more: Str, m: M, n: nat) {
    dec(torn + more) == Ok(m, n)
  }

  /** Frames followed by torn bytes that more bytes make into one more frame. */
  lemma FramesThenFrame<M(!new)>(dec: Str -> Decoded<M>, front: Str, ms: seq<M>, torn: Str, more: Str, m: M, n: nat)
    requires Sound(dec) && ReadsFirst(dec, front, ms, torn + more) && torn != [] && Completes(dec, torn, more, m, n)
    ensures UpTo(dec, front + torn + more, ms + [m], |front| + n)
  {
    Assoc(front, torn, more);
    SplitFront(front, torn + more, 0);
    UpToStep(dec, front + torn + more, ms, |front|, m, n);
  }

  /** The new frame ends behind fill, and reading goes on with the rest. */
  lemma FramesThenFilled<M(!new)>(dec: Str -> Decoded<M>, front: Str, ms: seq<M>, torn: Str, fill: Str, rest: Str, m: M)
    requires Sound(dec) && ReadsFirst(dec, front, ms, torn + (fill + rest)) && torn != []
    requires Completes(dec, torn, fill + rest, m, |torn| + |fill|)
    ensures DecodeAll(dec, front + torn + (fill + rest))
            == Follow(Log(ms + [m], Clean, |front| + |torn| + |fill|), DecodeAll(dec, rest))
  {
    FramesThenFrame(dec, front, ms, torn, fill + rest, m, |torn| + |fill|);
    FourParts(front, torn, fill, rest);
    Assoc(front + torn, fill, rest);
  }

  /** Whatever follows it, the new frame comes right behind the others. */
  lemma FrameIsNext<M(!new)>(dec: Str -> Decoded<M>, front: Str, ms: seq<M>, torn: Str, more: Str, m: M, n: nat)
    requires Sound(dec) && ReadsFirst(dec, front, ms, torn + more) && torn != [] && Completes(dec, torn, more, m, n)
    ensures ms + [m] <= DecodeAll(dec, front + torn + more).ms
  {
    FramesThenFrame(dec, front, ms, torn, more, m, n);
  }

  lemma StopsAtOnce<M(!new)>(dec: Str -> Decoded<M>, b: Str)
    requires Sound(dec) && (b == [] || !dec(b).Ok?)
    ensures DecodeAll(dec, b) == Log([], if b == [] then Clean else if dec(b).Corrupt? then Damaged else Truncated, 0)
  {
  }

  lemma FollowNothing<M>(acc: seq<M>, off: nat, v: Verdict)
    ensures Follow(Log(acc, Clean, off), Log([], v, 0)) == Log(acc, v, off)
  {
    assert acc + [] == acc;
  }

  lemma UpToEnd<M(!new)>(dec: Str -> Decoded<M>, p: Str, acc: seq<M>, off: nat)
    requires Sound(dec) && UpTo(dec, p, acc, off)
    requires off == |p| || !dec(p[off..]).Ok?
    ensures DecodeAll(dec, p) ==
            Log(acc, if off == |p| then Clean else if dec(p[off..]).Corrupt? then Damaged else Truncated, off)
  {
    var rest := p[off..];
    StopsAtOnce(dec, rest);
    FollowNothing(acc, off, DecodeAll(dec, rest).verdict);
  }

  /** The outcome d of trying the frame at off. */
  ghost predicate Advanced<M(!new)>(dec: Str -> Decoded<M>, p: Str, acc: seq<M>, off: nat, d: Decoded<M>)
    requires Sound(dec)
  {
    match d
    case Ok(m, n) => 0 < n && off + n <= |p| && UpTo(dec, p, acc + [m], off + n)
    case Incomplete => DecodeAll(dec, p) == Log(acc, Truncated, off)
    case Corrupt => DecodeAll(dec, p) == Log(acc, Damaged, off)
  }

  lemma Advance<M(!new)>(dec: Str -> Decoded<M>, p: Str, acc: seq<M>, off: nat)
    requires Sound(dec) && UpTo(dec, p, acc, off) && off < |p|
    ensures Advanced(dec, p, acc, off, dec(p[off..]))
  {
    assert SoundAt(dec, p[off..]);
    match dec(p[off..])
    case Ok(m, n) => UpToStep(dec, p, acc, off, m, n);
    case _ => UpToEnd(dec, p, acc, off);
  }

  /** One more chunk: the undecoded remainder is all that has to be kept of the bytes seen before. */
  lemma ChunkStep<M(!new)>(dec: Str -> Decoded<M>, seen: Str, chunk: Str)
    requires Sound(dec) && Stable(dec)
    requires DecodeAll(dec, seen).verdict != Damaged
    ensures var l := DecodeAll(dec, seen);
            var pending := seen[l.stopped..] + chunk;
            var r := DecodeAll(dec, pending);
            && DecodeAll(dec, seen + chunk) == Follow(l, r)
            && (seen + chunk)[l.stopped + r.stopped..] == pending[r.stopped..]
  {
    Resume(dec, seen, chunk);
  }

  // ----- A fixed number of frames -----

  function Append<M>(acc: seq<M>, k: nat, d: Decoded<seq<M>>): Decoded<seq<M>> {
    match d
    case Ok(ms, n) => Ok(acc + ms, k + n)
    case Incomplete => Incomplete
    case Corrupt => Corrupt
  }

  lemma AppendAssoc<M>(a: seq<M>, j: nat, b: seq<M>, k: nat, d: Decoded<seq<M>>)
    ensures Append(a, j, Append(b, k, d)) == Append(a + b, j + k, d)
  {
    if d.Ok? { assert a + (b + d.m) == a + b + d.m; }
  }

  lemma AppendNothing<M>(d: Decoded<seq<M>>)
    ensures Append([], 0, d) == d
  {
    if d.Ok? { assert [] + d.m == d.m; }
  }

  ghost function Repeat<M(!new)>(dec: Str -> Decoded<M>, b: Str, n: nat): (d: Decoded<seq<M>>)
    requires Sound(dec)
    ensures d.Ok? ==> d.size <= |b|
    decreases n
  {
    if n == 0 then Ok([], 0)
    else
      assert SoundAt(dec, b);
      match dec(b)
      case Incomplete => Incomplete
      case Corrupt => Corrupt
      case Ok(m, k) => Append([m], k, Repeat(dec, b[k..], n - 1))
  }

  ghost predicate StableUpTo<M(!new)>(dec: Str -> Decoded<M>, len: nat) {
    forall b, more :: |b| <= len ==> StableAt(dec, b, more)
  }

  lemma {:induction false} RepeatStable<M(!new)>(dec: Str -> Decoded<M>, b: Str, n: nat, more: Str)
    requires Sound(dec) && StableUpTo(dec, |b|) && !Repeat(dec, b, n).Incomplete?
    ensures Repeat(dec, b + more, n) == Repeat(dec, b, n)
    decreases n
  {
    if n > 0 {
      assert SoundAt(dec, b) && StableAt(dec, b, more);
      if dec(b).Ok? {
        var k := dec(b).size;
        assert (b + more)[k..] == b[k..] + more;
        RepeatStable(dec, b[k..], n - 1, more);
      }
    }
  }

  /** The frames in acc come from b[..off]; n - |acc| more are to be read. */
  ghost predicate RepeatedTo<M(!new)>(dec: Str -> Decoded<M>, b: Str, n: nat, acc: seq<M>, off: nat)
    requires Sound(dec)
  {
    && |acc| <= n && off <= |b|
    && Repeat(dec, b, n) == Append(acc, off, Repeat(dec, b[off..], n - |acc|))
  }

  lemma RepeatedToStart<M(!new)>(dec: Str -> Decoded<M>, b: Str, n: nat)
    requires Sound(dec)
    ensures RepeatedTo(dec, b, n, [], 0)
  {
    assert b[0..] == b;
    AppendNothing(Repeat(dec, b, n));
  }

  /** The outcome d of trying the frame at off. */
  ghost predicate RepeatStepped<M(!new)>(dec: Str -> Decoded<M>, b: Str, n: nat, acc: seq<M>, off: nat, d: Decoded<M>)
    requires Sound(dec)
  {
    match d
    case Ok(m, k) => off + k <= |b| && RepeatedTo(dec, b, n, acc + [m], off + k)
    case Incomplete => Repeat(dec, b, n).Incomplete?
    case Corrupt => Repeat(dec, b, n).Corrupt?
  }

  lemma RepeatedToStep<M(!new)>(dec: Str -> Decoded<M>, b: Str, n: nat, acc: seq<M>, off: nat)
    requires Sound(dec) && RepeatedTo(dec, b, n, acc, off) && |acc| < n
    ensures RepeatStepped(dec, b, n, acc, off, dec(b[off..]))
  {
    assert SoundAt(dec, b[off..]);
    if dec(b[off..]).Ok? {
      var m, k := dec(b[off..]).m, dec(b[off..]).size;
      assert b[off..][k..] == b[off + k..];
      AppendAssoc(acc, off, [m], k, Repeat(dec, b[off + k..], n - |acc| - 1));
    }
  }

  lemma RepeatedToEnd<M(!new)>(dec: Str -> Decoded<M>, b: Str, n: nat, acc: seq<M>, off: nat)
    requires Sound(dec) && RepeatedTo(dec, b, n, acc, off) && |acc| == n
    ensures Repeat(dec, b, n) == Ok(acc, off)
  {
    assert acc + [] == acc;
  }

  // ----- Receiving n frames, unless one of them stops the exchange -----

  datatype Received<+M> = Values(ms: seq<M>) | Malformed | RanOut | StoppedAt(index: nat)

  /** acc has been received, b is still to come before the peer closes; also the bytes left unread. */
  ghost function Receive<M(!new)>(dec: Str -> Decoded<M>, stops: M -> bool, b: Str, acc: seq<M>,
                                  n: nat): (Received<M>, Str)
    requires Sound(dec) && |acc| <= n
    decreases n - |acc|
  {
    if |acc| == n then (Values(acc), b)
    else
      assert SoundAt(dec, b);
      match dec(b)
      case Corrupt => (Malformed, b)
      case Incomplete => (RanOut, b)
      case Ok(m, k) => if stops(m) then (StoppedAt(|acc|), b[k..]) else Receive(dec, stops, b[k..], acc + [m], n)
  }

  lemma ReceiveOne<M(!new)>(dec: Str -> Decoded<M>, stops: M -> bool, e: Str, rest: Str, m: M, acc: seq<M>, n: nat)
    requires Sound(dec) && |acc| < n && dec(e + rest) == Ok(m, |e|)
    ensures Receive(dec, stops, e + rest, acc, n) ==
            if stops(m) then (StoppedAt(|acc|), rest) else Receive(dec, stops, rest, acc + [m], n)
  {
    SplitFront(e, rest, 0);
  }

  /** Encoded frames at the front of the stream are received in order. */
  lemma {:induction false} ReceiveFrames<M(!new)>(dec: Str -> Decoded<M>, enc: M -> Str, stops: M -> bool,
                                                 ms: seq<M>, rest: Str, acc: seq<M>, n: nat)
    requires Sound(dec) && AllFramed(dec, enc, ms) && n >= |acc| + |ms|
    requires forall i :: 0 <= i < |ms| ==> !stops(ms[i])
    ensures Receive(dec, stops, Encode(enc, ms) + rest, acc, n) == Receive(dec, stops, rest, acc + ms, n)
    decreases |ms|
  {
    if ms == [] {
      Unit(rest);
      assert acc + ms == acc;
    } else {
      var e, tail := enc(ms[0]), Encode(enc, ms[1..]);
      assert Framed(dec, enc, ms[0]) && ReadsBack(dec, enc, ms[0], tail + rest);
      Assoc(e, tail, rest);
      ReceiveOne(dec, stops, e, tail + rest, ms[0], acc, n);
      ReceiveFrames(dec, enc, stops, ms[1..], rest, acc + [ms[0]], n);
      assert acc + [ms[0]] + ms[1..] == acc + ms;
    }
  }
}
