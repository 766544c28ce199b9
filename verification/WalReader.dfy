/** Reading a log back: the chunked decoder over one file, and the chain of rotated files. */
module WalReader {
  import opened Bytes
  import opened Model
  import opened Framing
  import opened WalCodec
  import opened Segments

  datatype ReadStats = ReadStats(fileBytes: nat, decoded: nat, stopped: nat, incompleteTail: bool, corrupt: bool)

  /** The statistics a reader of the whole file b reports. */
  ghost function StatsOf(b: Str): ReadStats {
    var l := ReadLog(b);
    ReadStats(|b|, |l.ms|, l.stopped, l.verdict == Truncated, l.verdict == Damaged)
  }

  class Reader {
    var stats: ReadStats

    constructor ()
      ensures stats == ReadStats(0, 0, 0, false, false)
    {
      stats := ReadStats(0, 0, 0, false, false);
    }

    /** Tries to decode the event at off, given that acc came before it. */
    method TryOne(pending: Str, ghost acc: seq<Mutation>, off: nat) returns (d: Decoded<Mutation>, next: nat)
      requires Sound(DecodeOne) && off < |pending| && UpTo(DecodeOne, pending, acc, off)
      ensures Advanced(DecodeOne, pending, acc, off, d)
      ensures next == if d.Ok? then off + d.size else off
    {
      Advance(DecodeOne, pending, acc, off);
      var probe;
      d, probe := DecodeOneStatus(pending, off);
      next := if d.Ok? then probe else off;
    }

    /** Decodes the buffer from its start until it runs out or meets bytes that do not decode. */
    method DecodePending(pending: Str) returns (out: seq<Mutation>, off: nat, corrupt: bool)
      ensures off <= |pending|
      ensures ReadLog(pending) ==
              Log(out, if off == |pending| then Clean else if corrupt then Damaged else Truncated, off)
      ensures corrupt ==> off < |pending|
    {
      DecoderIsFraming();
      out, off, corrupt := [], 0, false;
      UpToStart(DecodeOne, pending);
      while off < |pending|
        invariant off <= |pending| && UpTo(DecodeOne, pending, out, off)
      {
        var d, next := TryOne(pending, out, off);
        if !d.Ok? {
          corrupt := d.Corrupt?;
          return;
        }
        out, off := out + [d.m], next;
      }
      UpToEnd(DecodeOne, pending, out, off);
    }

    /**
      Reads a file delivered in chunks; the last chunk is the one that meets end of file. However the
      file is divided, the events, the verdict and the statistics are those of decoding it at once.
    */
    method ReadAll(chunks: seq<Str>) returns (ok: bool, out: seq<Mutation>)
      requires chunks != []
      modifies this
      ensures out == ReadLog(Concat(chunks)).ms
      ensures ok <==> ReadLog(Concat(chunks)).verdict != Damaged
      ensures stats == StatsOf(Concat(chunks))
    {
      DecoderIsFraming();
      out := [];
      var pending, consumed, fileBytes := [], 0, 0;
      ghost var seen := [];
      var i := 0;
      assert chunks[0..] == chunks;
      while i < |chunks|
        invariant 0 <= i <= |chunks| && fileBytes == |seen|
        invariant Concat(chunks) == seen + Concat(chunks[i..])
        invariant ReadSoFar(seen, out, pending, consumed)
      {
        ghost var rest := Concat(chunks[i + 1..]);
        assert chunks[i..][1..] == chunks[i + 1..];
        Assoc(seen, chunks[i], rest);
        var more, off, corrupt := DecodePending(pending + chunks[i]);
        NextChunk(seen, out, pending, consumed, chunks[i], more, off, corrupt);
        out := out + more;
        if corrupt {
          DamageIsFinal(DecodeOne, seen + chunks[i], rest);
          var size := Total(chunks);
          stats := ReadStats(size, |out|, consumed + off, false, true);
          ok := false;
          return;
        }
        pending, consumed := (pending + chunks[i])[off..], consumed + off;
        seen, fileBytes := seen + chunks[i], fileBytes + |chunks[i]|;
        i := i + 1;
      }
      Unit(seen);
      stats := ReadStats(fileBytes, |out|, consumed, pending != [], false);
      ok := true;
    }
  }

  /** The undamaged bytes seen so far gave out, and pending of them is not decoded yet. */
  ghost predicate ReadSoFar(seen: Str, out: seq<Mutation>, pending: Str, consumed: nat) {
    var l := ReadLog(seen);
    l.verdict != Damaged && l.ms == out && l.stopped == consumed && consumed <= |seen| && pending == seen[consumed..]
  }

  /** Decoding pending and one more chunk continues the read. */
  lemma NextChunk(seen: Str, out: seq<Mutation>, pending: Str, consumed: nat, chunk: Str,
                  more: seq<Mutation>, off: nat, corrupt: bool)
    requires ReadSoFar(seen, out, pending, consumed)
    requires off <= |pending + chunk| && (corrupt ==> off < |pending + chunk|)
    requires ReadLog(pending + chunk) ==
             Log(more, if off == |pending + chunk| then Clean else if corrupt then Damaged else Truncated, off)
    ensures corrupt ==> ReadLog(seen + chunk) == Log(out + more, Damaged, consumed + off)
    ensures !corrupt ==> ReadSoFar(seen + chunk, out + more, (pending + chunk)[off..], consumed + off)
  {
    DecoderIsFraming();
    ChunkStep(DecodeOne, seen, chunk);
  }

  /** The statistics of a log that was cut after n bytes: all of it seen, the whole events decoded, no damage. */
  lemma CutStats(ms: seq<Mutation>, n: nat)
    requires AllWellFormed(ms) && n <= |EncodeBatch(ms)|
    ensures var k := WholeEvents(ms, n); var whole := |EncodeBatch(ms[..k])|;
            StatsOf(EncodeBatch(ms)[..n]) == ReadStats(n, k, whole, whole < n, false)
  {
    CrashTail(ms, n);
  }

  function Total(chunks: seq<Str>): (n: nat)
    ensures n == |Concat(chunks)|
  {
    if chunks == [] then 0 else |chunks[0]| + Total(chunks[1..])
  }

  // ----- The chain of rotated files -----

  /** What the chain reader gets from the files of a chain, oldest first. */
  ghost function ReadChain(files: seq<Str>): Option<seq<Mutation>> {
    DecoderIsFraming();
    ReadSegments(DecodeOne, files)
  }

  method ReadAllMutationsWalChain(files: seq<Str>) returns (r: Option<seq<Mutation>>)
    ensures r == ReadChain(files)
  {
    var out: seq<Mutation> := [];
    assert files[0..] == files && (ReadChain(files).Some? ==> out + ReadChain(files).value == ReadChain(files).value);
    for i := 0 to |files|
      invariant ReadChain(files) == Onto(out, ReadChain(files[i..]))
    {
      var reader := new Reader();
      var ok, ms := reader.ReadAll([files[i]]);
      ConcatSnoc([], files[i]);
      Unit(files[i]);
      assert [] + [files[i]] == [files[i]];
      assert files[i..][1..] == files[i + 1..];
      if !ok { return None; }
      OntoAssoc(out, ms, ReadChain(files[i + 1..]));
      out := out + ms;
    }
    assert out + [] == out;
    r := Some(out);
  }

  /** Every file of the chain ends between two events of the log. */
  ghost predicate FilesEndBetweenEvents(files: seq<Str>, ms: seq<Mutation>) {
    OnBoundaries(EncodeMutation, files, ms)
  }

  /**
    The chain reader returns a log that was cut into files exactly when every cut falls between two
    events: a file that ends inside an event loses that event silently or fails the read.
  */
  lemma ChainReadIff(files: seq<Str>, ms: seq<Mutation>)
    requires AllWellFormed(ms) && Concat(files) == EncodeBatch(ms)
    ensures ReadChain(files) == Some(ms) <==> FilesEndBetweenEvents(files, ms)
  {
    DecoderIsFraming();
    EventsAreFramed(ms);
    forall b ensures NeverExpandsAt(DecodeOne, EncodeMutation, b) {
      if DecodeOne(b).Ok? { DecodeNeverExpands(b); }
    }
    SegmentsIff(DecodeOne, EncodeMutation, files, ms);
  }
}
