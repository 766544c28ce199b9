/** Binary form of one write event in the log, and of a list of them. */
module WalCodec {
  import opened Bytes
  import opened Model
  import opened RecordCodec
  import opened Framing

  /** What follows the key: the record bytes for a put that carries one, nothing otherwise. */
  function RecordPart(m: Mutation): Str {
    if m.kind == PUT && m.record.Some? then EncodeRecord(m.record.value) else []
  }

  /** 'W' '2', version 1, timestamp, type, key, record length, record. */
  function EncodeMutation(m: Mutation): (b: Str)
    ensures |b| == 20 + |m.key| + |RecordPart(m)|
  {
    [87, 50, 1] + LE(m.ts % U64, 8) + [m.kind] + EncStr(m.key) + (LE(|RecordPart(m)|, 4) + RecordPart(m))
  }

  function EncodeBatch(ms: seq<Mutation>): Str {
    Encode(EncodeMutation, ms)
  }

  /** Decodes one write event from the front of b. */
  function DecodeOne(b: Str): (d: Decoded<Mutation>)
    ensures d.Ok? ==> 20 <= d.size <= |b|
  {
    if |b| < 3 then Incomplete
    else if b[0] != 87 || b[1] != 50 || b[2] != 1 then Corrupt
    else if |b| < 16 then Incomplete
    else
      var n := U32At(b, 12);
      if |b| < 20 + n then Incomplete else DecodeRest(b, n)
  }

  /** The part after an n-byte key: record length and record. */
  function DecodeRest(b: Str, n: nat): (d: Decoded<Mutation>)
    requires |b| >= 20 + n
    ensures d.Ok? ==> 20 <= d.size <= |b|
  {
    var size := U32At(b, 16 + n);
    if |b| < 20 + n + size then Incomplete
    else Assemble(b[11], ToSigned(U64At(b, 3)), b[16..16 + n], b[20 + n..20 + n + size])
  }

  function Assemble(kind: byte, ts: i64, key: Str, record: Str): (d: Decoded<Mutation>)
    ensures d.Ok? ==> d.size == 20 + |key| + |record|
  {
    if record == [] then Ok(Mutation(kind, key, None, ts), 20 + |key|)
    else
      match DecodeRecord(record)
      case None => Corrupt
      case Some(r) => Ok(Mutation(kind, key, Some(r), ts), 20 + |key| + |record|)
  }

  /** The write events whose binary form carries everything they hold. */
  ghost predicate WellFormed(m: Mutation) {
    && |m.key| < U32
    && (m.record.Some? ==> m.kind == PUT && |EncodeRecord(m.record.value)| < U32)
  }

  ghost predicate AllWellFormed(ms: seq<Mutation>) {
    forall i :: 0 <= i < |ms| ==> WellFormed(ms[i])
  }

  lemma DecodeStable(b: Str, more: Str)
    requires !DecodeOne(b).Incomplete?
    ensures DecodeOne(b + more) == DecodeOne(b)
  {
    if |b| >= 16 && b[0] == 87 && b[1] == 50 && b[2] == 1 {
      SliceOfFront(b, more, 12, 16);
      if |b| >= 20 + U32At(b, 12) {
        RestStable(b, more, U32At(b, 12));
      }
    }
  }

  lemma RestStable(b: Str, more: Str, n: nat)
    requires |b| >= 20 + n && !DecodeRest(b, n).Incomplete?
    ensures DecodeRest(b + more, n) == DecodeRest(b, n)
  {
    var size, b' := U32At(b, 16 + n), b + more;
    SliceOfFront(b, more, 3, 11);
    SliceOfFront(b, more, 16, 16 + n);
    SliceOfFront(b, more, 16 + n, 20 + n);
    SliceOfFront(b, more, 20 + n, 20 + n + size);
    assert b'[11] == b[11] && U32At(b', 16 + n) == size && U64At(b', 3) == U64At(b, 3);
  }

  /** The log decoder meets the two conditions every framing result rests on. */
  lemma DecoderIsFraming()
    ensures Sound(DecodeOne) && Stable(DecodeOne)
  {
    forall b, more ensures StableAt(DecodeOne, b, more) {
      if !DecodeOne(b).Incomplete? { DecodeStable(b, more); }
    }
  }

  /** Where each field of an encoded event sits: e has the layout of (ts, kind, key, record). */
  ghost predicate HasLayout(e: Str, ts: i64, kind: byte, key: Str, record: Str) {
    var n := |key|;
    && |e| == 20 + n + |record|
    && e[0] == 87 && e[1] == 50 && e[2] == 1 && e[11] == kind
    && e[3..11] == LE(ts % U64, 8) && e[12..16] == LE(n, 4) && e[16..16 + n] == key
    && e[16 + n..20 + n] == LE(|record|, 4) && e[20 + n..] == record
  }

  lemma Layout(m: Mutation)
    ensures HasLayout(EncodeMutation(m), m.ts, m.kind, m.key, RecordPart(m))
  {
    var n, record := |m.key|, RecordPart(m);
    var head := [87, 50, 1] + LE(m.ts % U64, 8) + [m.kind];
    assert head[3..11] == LE(m.ts % U64, 8);
    assert EncodeMutation(m) == head + EncStr(m.key) + (LE(|record|, 4) + record);
    LayoutSlices(head, LE(n, 4), m.key, LE(|record|, 4), record);
  }

  lemma LayoutSlices(head: Str, len: Str, key: Str, size: Str, record: Str)
    requires |head| == 12 && |len| == 4 && |size| == 4
    ensures var e, n := head + (len + key) + (size + record), |key|;
            && |e| == 20 + n + |record|
            && e[..12] == head && e[12..16] == len && e[16..16 + n] == key
            && e[16 + n..20 + n] == size && e[20 + n..] == record
            && e[3..11] == head[3..11]
  {
    var e, n := head + (len + key) + (size + record), |key|;
    assert e[..16 + n] == head + (len + key) && e[16 + n..] == size + record;
    assert e[12..16 + n] == len + key;
    assert e[16..16 + n] == e[12..16 + n][4..] && e[12..16] == e[12..16 + n][..4];
    assert e[16 + n..20 + n] == e[16 + n..][..4] && e[20 + n..] == e[16 + n..][4..];
  }

  lemma LayoutFields(e: Str, b: Str, ts: i64, kind: byte, key: Str, record: Str)
    requires HasLayout(e, ts, kind, key, record) && e <= b
    requires |key| < U32 && |record| < U32
    ensures var n := |key|;
            && b[0] == 87 && b[1] == 50 && b[2] == 1 && b[11] == kind
            && ToSigned(U64At(b, 3)) == ts && U32At(b, 12) == n && b[16..16 + n] == key
            && U32At(b, 16 + n) == |record| && b[20 + n..20 + n + |record|] == record
  {
    var n, more := |key|, b[|e|..];
    assert b == e + more;
    SliceOfFront(e, more, 3, 11);
    SliceOfFront(e, more, 12, 16);
    SliceOfFront(e, more, 16, 16 + n);
    SliceOfFront(e, more, 16 + n, 20 + n);
    SliceOfFront(e, more, 20 + n, |e|);
    U64AtLE(b, 3, ts % U64);
    U32AtLE(b, 12, n);
    U32AtLE(b, 16 + n, |record|);
    assert ToSigned(ts % U64) == ts;
  }

  /** What the decoder does on a buffer that starts with an event of the given layout. */
  lemma DecodeLayout(e: Str, b: Str, ts: i64, kind: byte, key: Str, record: Str)
    requires HasLayout(e, ts, kind, key, record) && e <= b
    requires |key| < U32 && |record| < U32
    ensures DecodeOne(b) == Assemble(kind, ts, key, record)
  {
    LayoutFields(e, b, ts, kind, key, record);
    assert DecodeOne(b) == DecodeRest(b, |key|);
  }

  /** A well-formed event is read back whole, whatever follows it. */
  lemma MutationRoundTrip(m: Mutation, rest: Str)
    requires WellFormed(m)
    ensures DecodeOne(EncodeMutation(m) + rest) == Ok(m, |EncodeMutation(m)|)
  {
    Layout(m);
    if m.record.Some? {
      RecordRoundTrip(m.record.value);
    }
    DecodeLayout(EncodeMutation(m), EncodeMutation(m) + rest, m.ts, m.kind, m.key, RecordPart(m));
  }

  lemma DecodedParts(b: Str)
    requires DecodeOne(b).Ok?
    ensures |b| >= 16 && |b| >= 20 + U32At(b, 12)
    ensures var n := U32At(b, 12); var size := U32At(b, 16 + n);
            && DecodeOne(b).size == 20 + n + size <= |b| && |DecodeOne(b).m.key| == n
            && DecodeOne(b).m.record == if size == 0 then None else DecodeRecord(b[20 + n..20 + n + size])
  {
  }

  lemma PartsNeverExpand(m: Mutation, n: nat, size: nat, rb: Str)
    requires |m.key| == n && |rb| == size < U32
    requires m.record == if size == 0 then None else DecodeRecord(rb)
    ensures |EncodeMutation(m)| <= 20 + n + size
    ensures m.record.Some? ==> |EncodeRecord(m.record.value)| < U32
  {
    if m.record.Some? {
      RecordNeverExpands(rb);
    }
    assert |RecordPart(m)| <= size;
  }

  /** Re-encoding a decoded event takes no more bytes than were read for it. */
  lemma DecodeNeverExpands(b: Str)
    requires DecodeOne(b).Ok?
    ensures |EncodeMutation(DecodeOne(b).m)| <= DecodeOne(b).size
    ensures |DecodeOne(b).m.key| < U32
    ensures DecodeOne(b).m.record.Some? ==> |EncodeRecord(DecodeOne(b).m.record.value)| < U32
  {
    DecodedParts(b);
    var n := U32At(b, 12);
    var size := U32At(b, 16 + n);
    PartsNeverExpand(DecodeOne(b).m, n, size, b[20 + n..20 + n + size]);
  }

  /** Exactly the well-formed events survive the trip through the log. */
  lemma RoundTripIff(m: Mutation, rest: Str)
    ensures DecodeOne(EncodeMutation(m) + rest) == Ok(m, |EncodeMutation(m)|) <==> WellFormed(m)
  {
    if WellFormed(m) {
      MutationRoundTrip(m, rest);
    } else if DecodeOne(EncodeMutation(m) + rest) == Ok(m, |EncodeMutation(m)|) {
      DecodeNeverExpands(EncodeMutation(m) + rest);
      Layout(m);
      DecodeLayout(EncodeMutation(m), EncodeMutation(m) + rest, m.ts, m.kind, m.key, RecordPart(m));
      assert false;
    }
  }

  lemma CutLayout(e: Str, n: nat, ts: i64, kind: byte, key: Str, record: Str)
    requires HasLayout(e, ts, kind, key, record) && n < |e|
    requires |key| < U32 && |record| < U32
    ensures DecodeOne(e[..n]).Incomplete?
  {
    var b := e[..n];
    if n >= 16 {
      assert b[12..16] == e[12..16];
      U32AtLE(b, 12, |key|);
      if n >= 20 + |key| {
        assert b[16 + |key|..20 + |key|] == e[16 + |key|..20 + |key|];
        U32AtLE(b, 16 + |key|, |record|);
      }
    }
  }

  /** Cutting an encoded event anywhere short of its end is recognised as an incomplete tail. */
  lemma CutIsIncomplete(m: Mutation, n: nat)
    requires WellFormed(m) && n < |EncodeMutation(m)|
    ensures DecodeOne(EncodeMutation(m)[..n]).Incomplete?
  {
    Layout(m);
    CutLayout(EncodeMutation(m), n, m.ts, m.kind, m.key, RecordPart(m));
  }

  lemma EventsAreFramed(ms: seq<Mutation>)
    requires AllWellFormed(ms)
    ensures AllFramed(DecodeOne, EncodeMutation, ms)
  {
    forall i | 0 <= i < |ms| ensures Framed(DecodeOne, EncodeMutation, ms[i]) {
      forall rest ensures ReadsBack(DecodeOne, EncodeMutation, ms[i], rest) {
        MutationRoundTrip(ms[i], rest);
      }
      forall n: nat ensures CutTolerated(DecodeOne, EncodeMutation, ms[i], n) {
        if n < |EncodeMutation(ms[i])| { CutIsIncomplete(ms[i], n); }
      }
    }
  }

  /** The log as a whole: what a reader of the bytes b gets. */
  ghost function ReadLog(b: Str): Log<Mutation> {
    DecoderIsFraming();
    DecodeAll(DecodeOne, b)
  }

  lemma BatchRoundTrip(ms: seq<Mutation>)
    requires AllWellFormed(ms)
    ensures ReadLog(EncodeBatch(ms)) == Log(ms, Clean, |EncodeBatch(ms)|)
  {
    DecoderIsFraming();
    EventsAreFramed(ms);
    RoundTrip(DecodeOne, EncodeMutation, ms);
  }

  lemma EncodeBatchInjective(a: seq<Mutation>, b: seq<Mutation>)
    requires AllWellFormed(a) && AllWellFormed(b)
    requires EncodeBatch(a) == EncodeBatch(b)
    ensures a == b
  {
    BatchRoundTrip(a);
    BatchRoundTrip(b);
  }

  /** How many leading events of ms fit whole into n bytes. */
  function WholeEvents(ms: seq<Mutation>, n: nat): nat {
    Whole(EncodeMutation, ms, n)
  }

  /** The first k events are all that are whole in the first n bytes of log ms. */
  ghost predicate WholeIn(ms: seq<Mutation>, n: nat, k: nat) {
    k <= |ms| && |EncodeBatch(ms[..k])| <= n && (k < |ms| ==> n < |EncodeBatch(ms[..k + 1])|)
  }

  lemma WholeEventsIn(ms: seq<Mutation>, n: nat)
    ensures WholeIn(ms, n, WholeEvents(ms, n))
  {
    WholeBounds(EncodeMutation, ms, n);
  }

  /** A log cut after any number of bytes reads back as its longest whole prefix, never as damaged. */
  lemma CrashTail(ms: seq<Mutation>, n: nat)
    requires AllWellFormed(ms) && n <= |EncodeBatch(ms)|
    ensures var k := WholeEvents(ms, n); var whole := |EncodeBatch(ms[..k])|;
            && k <= |ms| && whole <= n && (k < |ms| ==> |EncodeBatch(ms[..k + 1])| > n)
            && ReadLog(EncodeBatch(ms)[..n]) == Log(ms[..k], if whole == n then Clean else Truncated, whole)
  {
    DecoderIsFraming();
    EventsAreFramed(ms);
    CutReadsWholePrefix(DecodeOne, EncodeMutation, ms, n);
    var k := WholeEvents(ms, n);
    if k < |ms| { WholeIsLongest(EncodeMutation, ms, n, k + 1); }
  }

  // ----- The codec as it runs -----

  method AppendMutation(buf: Str, m: Mutation) returns (out: Str)
    ensures out == buf + EncodeMutation(m)
  {
    var e := [87, 50, 1];
    e := AppendLE(e, m.ts % U64, 8);
    e := e + [m.kind];
    e := AppendString(e, m.key);
    var rb := [];
    if m.kind == PUT && m.record.Some? {
      rb := EncodeRecordBytes(m.record.value);
    }
    var size := AppendLE([], |rb|, 4);
    Unit(LE(|rb|, 4));
    out := buf + (e + (size + rb));
  }

  /** How much has been read when b turns out to be corrupt: magic and version, or all but the record. */
  function ReadWhenCorrupt(b: Str): nat
    requires DecodeOne(b).Corrupt?
  {
    if b[0] != 87 || b[1] != 50 || b[2] != 1 then 3 else 20 + U32At(b, 12)
  }

  /**
    Decodes one event at offset off of data, reading field after field. The offset goes back to the
    start of an incomplete event, but stays where a corrupt one was found out.
  */
  method DecodeOneStatus(data: Str, off: nat) returns (d: Decoded<Mutation>, next: nat)
    requires off <= |data|
    ensures d == DecodeOne(data[off..])
    ensures next == match d
                    case Ok(_, n) => off + n
                    case Incomplete => off
                    case Corrupt => off + ReadWhenCorrupt(data[off..])
  {
    var b := data[off..];
    next := off;
    var ok, v, at := ReadLE(b, 0, 3);
    if !ok { return Incomplete, off; }
    if b[0] != 87 || b[1] != 50 || b[2] != 1 { return Corrupt, off + at; }
    var ts, n;
    ok, ts, at := ReadLE(b, at, 8);
    if !ok { return Incomplete, off; }
    if at + 1 > |b| { return Incomplete, off; }
    var kind := b[at];
    ok, n, at := ReadLE(b, at + 1, 4);
    if !ok { return Incomplete, off; }
    assert ts == U64At(b, 3) && n == U32At(b, 12);
    if at + n > |b| { return Incomplete, off; }
    at := at + n;
    if at + 4 > |b| { return Incomplete, off; }
    d := DecodeRestOf(b, n, kind, ts);
    next := if d.Ok? then off + d.size else if d.Incomplete? then off else off + at + 4;
  }

  method DecodeRestOf(b: Str, n: nat, kind: byte, ts: nat) returns (d: Decoded<Mutation>)
    requires |b| >= 20 + n && kind == b[11] && ts == U64At(b, 3)
    ensures d == DecodeRest(b, n)
  {
    var key := b[16..16 + n];
    var ok, size, at := ReadLE(b, 16 + n, 4);
    assert size == U32At(b, 16 + n);
    if at + size > |b| { return Incomplete; }
    var mu := Mutation(kind, key, None, ToSigned(ts));
    if size > 0 {
      var r := DecodeRecordBytes(b[at..at + size]);
      if r.None? { return Corrupt; }
      mu := mu.(record := r);
    }
    d := Ok(mu, at + size);
  }
}
