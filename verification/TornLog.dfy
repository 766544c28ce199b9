/**
  What becomes of events appended behind an event that a crash has cut. Nothing takes the torn bytes
  off the end of the log, and the writer opens the file for appending.
*/
module TornLog {
  import opened Bytes
  import opened Model
  import opened RecordCodec
  import opened Framing
  import opened WalCodec

  /** The log b holds the events ms and the first d bytes of event m, but not all of it. */
  ghost predicate EndsInside(b: Str, ms: seq<Mutation>, m: Mutation, d: nat) {
    && AllWellFormed(ms) && WellFormed(m) && 0 < d < |EncodeMutation(m)|
    && b == EncodeBatch(ms) + EncodeMutation(m)[..d]
  }

  /** Every cut of a log is between two events or inside one. */
  lemma BetweenOrInside(ms: seq<Mutation>, n: nat) returns (k: nat, d: nat)
    requires AllWellFormed(ms) && n <= |EncodeBatch(ms)|
    ensures k == WholeEvents(ms, n) <= |ms| && n == |EncodeBatch(ms[..k])| + d
    ensures if d == 0 then EncodeBatch(ms)[..n] == EncodeBatch(ms[..k])
            else k < |ms| && EndsInside(EncodeBatch(ms)[..n], ms[..k], ms[k], d)
  {
    CutSplits(EncodeMutation, ms, n);
    k := WholeEvents(ms, n);
    d := n - |EncodeBatch(ms[..k])|;
    if k < |ms| && d == 0 { Unit(EncodeBatch(ms[..k])); }
  }

  /** Between two events: what is appended follows what is there. */
  lemma AppendBetween(ms: seq<Mutation>, more: seq<Mutation>)
    requires AllWellFormed(ms) && AllWellFormed(more)
    ensures ReadLog(EncodeBatch(ms) + EncodeBatch(more))
            == Log(ms + more, Clean, |EncodeBatch(ms)| + |EncodeBatch(more)|)
  {
    EncodeAppend(EncodeMutation, ms, more);
    BatchRoundTrip(ms + more);
  }

  lemma Readable(ms: seq<Mutation>)
    requires AllWellFormed(ms)
    ensures Sound(DecodeOne) && AllFramed(DecodeOne, EncodeMutation, ms)
  {
    DecoderIsFraming();
    EventsAreFramed(ms);
  }

  /** Inside one: if torn and new bytes do not make an event, nothing of what is appended comes back. */
  lemma StopsAtTear(b: Str, ms: seq<Mutation>, torn: Str, more: Str)
    requires AllWellFormed(ms) && torn != [] && b == EncodeBatch(ms) + torn && !DecodeOne(torn + more).Ok?
    ensures var v := if DecodeOne(torn + more).Corrupt? then Damaged else Truncated;
            ReadLog(b + more) == Log(ms, v, |b| - |torn|)
  {
    Readable(ms);
    FramesThenStop(DecodeOne, EncodeMutation, ms, torn, more);
  }

  lemma EventsFirst(ms: seq<Mutation>, rest: Str)
    requires AllWellFormed(ms)
    ensures Sound(DecodeOne) && ReadsFirst(DecodeOne, EncodeBatch(ms), ms, rest)
  {
    Readable(ms);
    DecodeFrames(DecodeOne, EncodeMutation, ms, rest);
  }

  lemma FirstByte(more: seq<Mutation>)
    requires more != []
    ensures |EncodeBatch(more)| >= 20 && EncodeBatch(more)[0] == 87
  {
    Layout(more[0]);
  }

  /** Torn after one or two bytes: whatever event is appended, the log can no longer be read. */
  lemma TornInMagic(b: Str, ms: seq<Mutation>, m: Mutation, d: nat, more: seq<Mutation>)
    requires EndsInside(b, ms, m, d) && d <= 2 && more != []
    ensures ReadLog(b + EncodeBatch(more)) == Log(ms, Damaged, |b| - d)
  {
    FirstByte(more);
    Layout(m);
    StopsAtTear(b, ms, EncodeMutation(m)[..d], EncodeBatch(more));
  }

  // ----- Torn inside the record -----

  /** An event whose record is completed with other bytes still has the layout of an event. */
  lemma MixedLayout(e: Str, ts: i64, kind: byte, key: Str, record: Str, d: nat, fill: Str)
    requires HasLayout(e, ts, kind, key, record) && 20 + |key| <= d <= |e| && |fill| == |e| - d
    ensures HasLayout(e[..d] + fill, ts, kind, key, record[..d - 20 - |key|] + fill)
  {
    var b, n := e[..d] + fill, |key|;
    SameFront(e, b, d, 0, 12);
    SameFront(e, b, d, 3, 11);
    SameFront(e, b, d, 12, 16);
    SameFront(e, b, d, 16, 16 + n);
    SameFront(e, b, d, 16 + n, 20 + n);
    SameFront(e, b, d, 20 + n, d);
    assert b[20 + n..] == b[20 + n..d] + fill;
    assert b[..12] == e[..12] && b[0] == b[..12][0] && b[1] == b[..12][1] && b[2] == b[..12][2] && b[11] == b[..12][11];
  }

  lemma SameFront(e: Str, b: Str, d: nat, i: nat, j: nat)
    requires i <= j <= d <= |e| && d <= |b| && b[..d] == e[..d]
    ensures b[i..j] == e[i..j]
  {
    assert b[i..j] == b[..d][i..j] && e[i..j] == e[..d][i..j];
  }

  lemma FilledDecodes(e: Str, ts: i64, kind: byte, key: Str, record: Str, d: nat, fill: Str, rest: Str)
    requires HasLayout(e, ts, kind, key, record) && 20 + |key| <= d <= |e| && |fill| == |e| - d
    requires |key| < U32 && |record| < U32
    ensures DecodeOne(e[..d] + (fill + rest)) == Assemble(kind, ts, key, record[..d - 20 - |key|] + fill)
  {
    MixedLayout(e, ts, kind, key, record, d, fill);
    Assoc(e[..d], fill, rest);
    DecodeLayout(e[..d] + fill, e[..d] + fill + rest, ts, kind, key, record[..d - 20 - |key|] + fill);
  }

  lemma UnfilledWaits(e: Str, ts: i64, kind: byte, key: Str, record: Str, d: nat, more: Str)
    requires HasLayout(e, ts, kind, key, record) && 20 + |key| <= d && d + |more| < |e|
    requires |key| < U32 && |record| < U32
    ensures DecodeOne(e[..d] + more).Incomplete?
  {
    var fill := more + e[d + |more|..];
    MixedLayout(e, ts, kind, key, record, d, fill);
    CutLayout(e[..d] + fill, d + |more|, ts, kind, key, record[..d - 20 - |key|] + fill);
    assert (e[..d] + fill)[..d + |more|] == e[..d] + more;
  }

  /** Torn inside its record, with fewer new bytes than it still misses: all of them are lost without a word. */
  lemma TornRecordLosesAll(b: Str, ms: seq<Mutation>, m: Mutation, d: nat, more: Str)
    requires EndsInside(b, ms, m, d) && 20 + |m.key| <= d && d + |more| < |EncodeMutation(m)|
    ensures ReadLog(b + more) == Log(ms, Truncated, |b| - d)
  {
    Layout(m);
    UnfilledWaits(EncodeMutation(m), m.ts, m.kind, m.key, RecordPart(m), d, more);
    StopsAtTear(b, ms, EncodeMutation(m)[..d], more);
  }

  /** The record of m with its first bytes kept and the missing ones replaced. */
  function Mixed(m: Mutation, d: nat, fill: Str): Str
    requires 20 + |m.key| <= d <= |EncodeMutation(m)|
  {
    RecordPart(m)[..d - 20 - |m.key|] + fill
  }

  lemma MixedAssembles(m: Mutation, record: Str)
    requires record != []
    ensures Assemble(m.kind, m.ts, m.key, record) ==
            var r := DecodeRecord(record); if r.None? then Corrupt else Ok(m.(record := r), 20 + |m.key| + |record|)
  {
  }

  lemma MixedDecodesAs(m: Mutation, e: Str, record: Str, d: nat, fill: Str, rest: Str)
    requires HasLayout(e, m.ts, m.kind, m.key, record) && |m.key| < U32 && |record| < U32
    requires 20 + |m.key| <= d < |e| && d + |fill| == |e|
    ensures DecodeOne(e[..d] + (fill + rest)) ==
            var r := DecodeRecord(record[..d - 20 - |m.key|] + fill);
            if r.None? then Corrupt else Ok(m.(record := r), d + |fill|)
  {
    FilledDecodes(e, m.ts, m.kind, m.key, record, d, fill, rest);
    MixedAssembles(m, record[..d - 20 - |m.key|] + fill);
  }

  lemma MixedDecodes(m: Mutation, d: nat, fill: Str, rest: Str)
    requires WellFormed(m) && 20 + |m.key| <= d < |EncodeMutation(m)| && d + |fill| == |EncodeMutation(m)|
    ensures DecodeOne(EncodeMutation(m)[..d] + (fill + rest)) ==
            var r := DecodeRecord(Mixed(m, d, fill)); if r.None? then Corrupt else Ok(m.(record := r), d + |fill|)
  {
    Layout(m);
    MixedDecodesAs(m, EncodeMutation(m), RecordPart(m), d, fill, rest);
  }

  /** If that makes a record, reading goes on behind it, in the middle of what was appended. */
  lemma MixedGoesOn(front: Str, ms: seq<Mutation>, torn: Str, fill: Str, rest: Str, x: Mutation)
    requires AllWellFormed(ms) && front == EncodeBatch(ms) && torn != []
    requires Completes(DecodeOne, torn, fill + rest, x, |torn| + |fill|)
    ensures ReadLog(front + torn + (fill + rest))
            == Follow(Log(ms + [x], Clean, |front| + |torn| + |fill|), ReadLog(rest))
  {
    EventsFirst(ms, torn + (fill + rest));
    FramesThenFilled(DecodeOne, front, ms, torn, fill, rest, x);
  }

  /**
    With as many or more, the record is completed with the first of the new bytes. Reading either fails
    there, or it goes on in the middle of the new events behind one nobody has written.
  */
  lemma TornRecordMixes(b: Str, ms: seq<Mutation>, m: Mutation, d: nat, fill: Str, rest: Str)
    requires EndsInside(b, ms, m, d) && 20 + |m.key| <= d && d + |fill| == |EncodeMutation(m)|
    ensures var r := DecodeRecord(Mixed(m, d, fill));
            ReadLog(b + (fill + rest)) ==
            if r.None? then Log(ms, Damaged, |b| - d)
            else Follow(Log(ms + [m.(record := r)], Clean, |b| + |fill|), ReadLog(rest))
  {
    var r := DecodeRecord(Mixed(m, d, fill));
    var torn := EncodeMutation(m)[..d];
    MixedDecodes(m, d, fill, rest);
    if r.None? {
      StopsAtTear(b, ms, torn, fill + rest);
    } else {
      MixedGoesOn(EncodeBatch(ms), ms, torn, fill, rest, m.(record := r));
    }
  }

  // ----- When is appending safe? -----

  lemma {:induction false} LEInvertsUnLE(s: Str)
    ensures LE(UnLE(s), |s|) == s
  {
    if s != [] {
      LEInvertsUnLE(s[1..]);
      LowByte(s[0], UnLE(s[1..]));
      assert s == [s[0]] + s[1..];
    }
  }

  lemma LowByte(b: byte, v: nat)
    ensures (b + 256 * v) % 256 == b && (b + 256 * v) / 256 == v
  {
  }

  lemma {:induction false} SmallBytes(v: nat, n: nat, i: nat)
    requires v <= 1 && i < n
    ensures LE(v, n)[i] <= 1
    decreases n
  {
    if i > 0 { SmallBytes(v / 256, n - 1, i - 1); }
  }

  lemma DecodedTime(b: Str)
    requires DecodeOne(b).Ok?
    ensures b[3..11] == LE(DecodeOne(b).m.ts % U64, 8)
  {
    var v := U64At(b, 3);
    assert DecodeOne(b).m.ts == ToSigned(v) && ToSigned(v) % U64 == v;
    LEInvertsUnLE(b[3..11]);
  }

  /** Behind torn bytes of an event of another time, no event of time 0 or 1 is read. */
  lemma OtherTime(torn: Str, ts: i64, new': Str, t: i64)
    requires 0 < |torn| && (|torn| >= 2 ==> torn[1] == 50) && (|torn| >= 11 ==> torn[3..11] == LE(ts % U64, 8))
    requires new' != [] && new'[0] == 87 && (t == 0 || t == 1) && t != ts
    requires DecodeOne(torn + new').Ok?
    ensures DecodeOne(torn + new').m.ts != t
  {
    var b, d := torn + new', |torn|;
    DecodedTime(b);
    assert b[d] == 87;
    if d >= 11 {
      SliceOfFront(torn, new', 3, 11);
      if DecodeOne(b).m.ts == t { SameTime(ts, t); }
    } else if d >= 3 {
      SmallBytes(t, 8, d - 3);
      assert b[3..11][d - 3] == b[d];
    }
  }

  lemma SameTime(ts: i64, t: i64)
    requires LE(ts % U64, 8) == LE(t % U64, 8)
    ensures ts == t
  {
    Pow256Widths();
    UnLEInvertsLE(ts % U64, 8);
    UnLEInvertsLE(t % U64, 8);
  }

  /** A deletion at time 0 or 1, whichever is not the time of m. */
  function Probe(m: Mutation): (p: Mutation)
    ensures WellFormed(p) && p.ts != m.ts
  {
    Mutation(DEL, [], None, if m.ts == 0 then 1 else 0)
  }

  /** However much of an event is left, there is one that does not come back when appended. */
  lemma ProbeIsLost(b: Str, ms: seq<Mutation>, m: Mutation, d: nat)
    requires EndsInside(b, ms, m, d)
    ensures ReadLog(b + EncodeBatch([Probe(m)])).ms != ms + [Probe(m)]
  {
    var torn, p, more := EncodeMutation(m)[..d], Probe(m), EncodeBatch([Probe(m)]);
    FirstByte([p]);
    TornFields(m, d, torn);
    if DecodeOne(torn + more).Ok? {
      var x, n := DecodeOne(torn + more).m, DecodeOne(torn + more).size;
      OtherTime(torn, m.ts, more, p.ts);
      EventsFirst(ms, torn + more);
      FrameIsNext(DecodeOne, EncodeBatch(ms), ms, torn, more, x, n);
      assert (ms + [x])[|ms|] != (ms + [p])[|ms|];
    } else {
      StopsAtTear(b, ms, torn, more);
    }
  }

  lemma TornFields(m: Mutation, d: nat, torn: Str)
    requires 0 < d < |EncodeMutation(m)| && torn == EncodeMutation(m)[..d]
    ensures (d >= 2 ==> torn[1] == 50) && (d >= 11 ==> torn[3..11] == LE(m.ts % U64, 8))
  {
    Layout(m);
    if d >= 11 { assert torn[3..11] == EncodeMutation(m)[3..11]; }
  }

  /** Whatever is appended to b comes back behind the events ms. */
  ghost predicate SafeToAppend(b: Str, ms: seq<Mutation>) {
    forall more :: AllWellFormed(more) ==> ReadLog(b + EncodeBatch(more)).ms == ms + more
  }

  /**
    A log that a crash has cut after n bytes can be appended to without loss exactly if the cut is
    between two events.
  */
  lemma SafeToAppendIff(ms: seq<Mutation>, n: nat)
    requires AllWellFormed(ms) && n <= |EncodeBatch(ms)|
    ensures var k := WholeEvents(ms, n);
            k <= |ms| && (SafeToAppend(EncodeBatch(ms)[..n], ms[..k]) <==> |EncodeBatch(ms[..k])| == n)
  {
    var b := EncodeBatch(ms)[..n];
    var k, d := BetweenOrInside(ms, n);
    if d == 0 {
      forall more | AllWellFormed(more) ensures ReadLog(b + EncodeBatch(more)).ms == ms[..k] + more {
        AppendBetween(ms[..k], more);
      }
    } else {
      ProbeIsLost(b, ms[..k], ms[k], d);
      assert AllWellFormed([Probe(ms[k])]);
    }
  }
}
