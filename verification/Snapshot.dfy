/** The snapshot file: its format, its strictness about cuts, and how it is replaced on disk. */
module Snapshot {
  import opened Bytes
  import opened Model
  import opened RecordCodec

  // ----- A counted list of entries, for any entry codec -----

  /** Reads n entries from the front of b. */
  function ReadCounted<E>(dec: Str -> Option<(E, Str)>, b: Str, n: nat): Option<(seq<E>, Str)>
    decreases n
  {
    if n == 0 then Some(([], b))
    else
      match dec(b)
      case None => None
      case Some((e, rest)) =>
        match ReadCounted(dec, rest, n - 1)
        case None => None
        case Some((es, rest')) => Some(([e] + es, rest'))
  }

  function EncodeEntries<E>(enc: E -> Str, es: seq<E>): Str {
    if es == [] then [] else enc(es[0]) + EncodeEntries(enc, es[1..])
  }

  ghost predicate EntryReads<E>(dec: Str -> Option<(E, Str)>, enc: E -> Str, e: E, rest: Str) {
    dec(enc(e) + rest) == Some((e, rest))
  }

  ghost predicate EntryCutFails<E>(dec: Str -> Option<(E, Str)>, enc: E -> Str, e: E, n: nat) {
    n < |enc(e)| ==> dec(enc(e)[..n]).None?
  }

  /** The codec reads every entry of es back and accepts no cut of one. */
  ghost predicate Strict<E(!new)>(dec: Str -> Option<(E, Str)>, enc: E -> Str, es: seq<E>) {
    forall i :: 0 <= i < |es| ==>
      && (forall rest :: EntryReads(dec, enc, es[i], rest))
      && (forall n: nat :: EntryCutFails(dec, enc, es[i], n))
  }

  lemma {:induction false} CountedRoundTrip<E(!new)>(dec: Str -> Option<(E, Str)>, enc: E -> Str, es: seq<E>, rest: Str)
    requires Strict(dec, enc, es)
    ensures ReadCounted(dec, EncodeEntries(enc, es) + rest, |es|) == Some((es, rest))
  {
    if es == [] {
      Unit(rest);
    } else {
      CountedRoundTrip(dec, enc, es[1..], rest);
      Assoc(enc(es[0]), EncodeEntries(enc, es[1..]), rest);
      assert EntryReads(dec, enc, es[0], EncodeEntries(enc, es[1..]) + rest);
      assert [es[0]] + es[1..] == es;
    }
  }

  lemma {:induction false} CountedCutFails<E(!new)>(dec: Str -> Option<(E, Str)>, enc: E -> Str, es: seq<E>, n: nat)
    requires Strict(dec, enc, es) && n < |EncodeEntries(enc, es)|
    ensures ReadCounted(dec, EncodeEntries(enc, es)[..n], |es|).None?
  {
    var e, tail := enc(es[0]), EncodeEntries(enc, es[1..]);
    SplitFront(e, tail, n);
    if n < |e| {
      assert EntryCutFails(dec, enc, es[0], n);
    } else {
      CountedCutFails(dec, enc, es[1..], n - |e|);
      assert EntryReads(dec, enc, es[0], tail[..n - |e|]);
    }
  }

  // ----- Snapshot entries -----

  /** Key, record length, record. */
  function EncodeEntry(e: (Str, Record)): (b: Str) {
    EncStr(e.0) + EncStr(EncodeRecord(e.1))
  }

  function ReadEntry(b: Str): Option<((Str, Record), Str)> {
    match StrFrom(b)
    case None => None
    case Some((key, rest)) => ReadRecordField(key, rest)
  }

  function ReadRecordField(key: Str, b: Str): Option<((Str, Record), Str)> {
    match StrFrom(b)
    case None => None
    case Some((rb, rest)) =>
      match DecodeRecord(rb)
      case None => None
      case Some(r) => Some(((key, r), rest))
  }

  ghost predicate EntryFits(e: (Str, Record)) {
    |e.0| < U32 && |EncodeRecord(e.1)| < U32
  }

  lemma CutStrFails(s: Str, n: nat)
    requires |s| < U32 && n < 4 + |s|
    ensures StrFrom(EncStr(s)[..n]).None?
  {
    var b := EncStr(s)[..n];
    if n >= 4 {
      assert b[0..4] == LE(|s|, 4);
      U32AtLE(b, 0, |s|);
    }
  }

  lemma EntryRoundTrip(e: (Str, Record), rest: Str)
    requires EntryFits(e)
    ensures ReadEntry(EncodeEntry(e) + rest) == Some((e, rest))
  {
    var k, rb := EncStr(e.0), EncStr(EncodeRecord(e.1));
    Assoc(k, rb, rest);
    StrFromEncStr(e.0, rb + rest);
    StrFromEncStr(EncodeRecord(e.1), rest);
    RecordRoundTrip(e.1);
  }

  lemma EntryCut(e: (Str, Record), n: nat)
    requires EntryFits(e) && n < |EncodeEntry(e)|
    ensures ReadEntry(EncodeEntry(e)[..n]).None?
  {
    var k, rb := EncStr(e.0), EncStr(EncodeRecord(e.1));
    SplitFront(k, rb, n);
    if n < |k| {
      CutStrFails(e.0, n);
    } else {
      StrFromEncStr(e.0, rb[..n - |k|]);
      CutStrFails(EncodeRecord(e.1), n - |k|);
    }
  }

  lemma EntriesAreStrict(es: seq<(Str, Record)>)
    requires forall i :: 0 <= i < |es| ==> EntryFits(es[i])
    ensures Strict(ReadEntry, EncodeEntry, es)
  {
    forall i | 0 <= i < |es|
      ensures (forall rest :: EntryReads(ReadEntry, EncodeEntry, es[i], rest))
      ensures (forall n: nat :: EntryCutFails(ReadEntry, EncodeEntry, es[i], n))
    {
      forall rest ensures EntryReads(ReadEntry, EncodeEntry, es[i], rest) { EntryRoundTrip(es[i], rest); }
      forall n: nat ensures EntryCutFails(ReadEntry, EncodeEntry, es[i], n) {
        if n < |EncodeEntry(es[i])| { EntryCut(es[i], n); }
      }
    }
  }

  // ----- The file -----

  /** 'S' '2', version 1, number of records, records. */
  function EncodeSnapshot(es: seq<(Str, Record)>): Str {
    [83, 50, 1] + LE(|es|, 4) + EncodeEntries(EncodeEntry, es)
  }

  /** The records of a snapshot file; bytes after the last record are ignored. */
  function ReadSnapshot(b: Str): Option<seq<(Str, Record)>> {
    if |b| < 7 || b[0] != 83 || b[1] != 50 || b[2] != 1 then None
    else
      match ReadCounted(ReadEntry, b[7..], U32At(b, 3))
      case None => None
      case Some((es, _)) => Some(es)
  }

  ghost predicate Fits(es: seq<(Str, Record)>) {
    |es| < U32 && forall i :: 0 <= i < |es| ==> EntryFits(es[i])
  }

  lemma HeaderThenBody(head: Str, count: Str, body: Str)
    requires |head| == 3 && |count| == 4
    ensures var b := head + count + body;
            b[..3] == head && b[3..7] == count && b[7..] == body && |b| == 7 + |body|
  {
  }

  lemma SnapshotRoundTrip(es: seq<(Str, Record)>)
    requires Fits(es)
    ensures ReadSnapshot(EncodeSnapshot(es)) == Some(es)
  {
    var b, body := EncodeSnapshot(es), EncodeEntries(EncodeEntry, es);
    HeaderThenBody([83, 50, 1], LE(|es|, 4), body);
    assert b[..3][0] == b[0] && b[..3][1] == b[1] && b[..3][2] == b[2];
    U32AtLE(b, 3, |es|);
    EntriesAreStrict(es);
    CountedRoundTrip(ReadEntry, EncodeEntry, es, []);
    Unit(body);
  }

  /** All or nothing: no proper prefix of a snapshot is accepted. */
  lemma SnapshotPrefixRejected(es: seq<(Str, Record)>, n: nat)
    requires Fits(es) && n < |EncodeSnapshot(es)|
    ensures ReadSnapshot(EncodeSnapshot(es)[..n]).None?
  {
    var e, body := EncodeSnapshot(es), EncodeEntries(EncodeEntry, es);
    var b := e[..n];
    if n >= 7 {
      HeaderThenBody([83, 50, 1], LE(|es|, 4), body);
      assert b[3..7] == e[3..7] && b[7..] == e[7..][..n - 7];
      U32AtLE(b, 3, |es|);
      EntriesAreStrict(es);
      CountedCutFails(ReadEntry, EncodeEntry, es, n - 7);
    }
  }

  // ----- Writing and reading as it runs -----

  method WriteSnapshot(es: seq<(Str, Record)>) returns (out: Str)
    ensures out == EncodeSnapshot(es)
  {
    out := AppendLE([83, 50, 1], |es|, 4);
    ghost var head := out;
    for i := 0 to |es|
      invariant out + EncodeEntries(EncodeEntry, es[i..]) == head + EncodeEntries(EncodeEntry, es)
    {
      assert es[i..][1..] == es[i + 1..];
      Assoc(out, EncodeEntry(es[i]), EncodeEntries(EncodeEntry, es[i + 1..]));
      var entry := WriteEntry(es[i]);
      out := out + entry;
    }
    Unit(out);
  }

  method WriteEntry(e: (Str, Record)) returns (out: Str)
    ensures out == EncodeEntry(e)
  {
    var rb := EncodeRecordBytes(e.1);
    out := AppendString([], e.0);
    Unit(EncStr(e.0));
    out := AppendString(out, rb);
  }

  method ReadOne(data: Str, off: nat) returns (r: Option<(Str, Record)>, next: nat)
    requires off <= |data|
    ensures r.None? ==> ReadEntry(data[off..]).None?
    ensures r.Some? ==> off < next <= |data| && ReadEntry(data[off..]) == Some((r.value, data[next..]))
  {
    var ok, key, rb;
    ok, key, next := ReadString(data, off);
    if !ok { return None, off; }
    ok, rb, next := ReadString(data, next);
    if !ok { return None, off; }
    var rec := DecodeRecordBytes(rb);
    if rec.None? { return None, off; }
    r := Some((key, rec.value));
  }

  /** How far a counted read has got: the entries so far, then the rest. */
  ghost predicate ReadSoFar<E(!new)>(dec: Str -> Option<(E, Str)>, b: Str, n: nat, out: seq<E>, rest: Str)
  {
    |out| <= n &&
    ReadCounted(dec, b, n) == match ReadCounted(dec, rest, n - |out|)
                              case None => None
                              case Some((es, rest')) => Some((out + es, rest'))
  }

  lemma ReadSoFarStart<E(!new)>(dec: Str -> Option<(E, Str)>, b: Str, n: nat)
    ensures ReadSoFar(dec, b, n, [], b)
  {
    if ReadCounted(dec, b, n).Some? { assert [] + ReadCounted(dec, b, n).value.0 == ReadCounted(dec, b, n).value.0; }
  }

  lemma ReadSoFarStep<E(!new)>(dec: Str -> Option<(E, Str)>, b: Str, n: nat, out: seq<E>, rest: Str)
    requires ReadSoFar(dec, b, n, out, rest) && |out| < n
    ensures dec(rest).None? ==> ReadCounted(dec, b, n).None?
    ensures dec(rest).Some? ==> ReadSoFar(dec, b, n, out + [dec(rest).value.0], dec(rest).value.1)
  {
    if dec(rest).Some? {
      var (e, rest') := dec(rest).value;
      var r := ReadCounted(dec, rest', n - |out| - 1);
      if r.Some? { assert out + ([e] + r.value.0) == out + [e] + r.value.0; }
    }
  }

  method ReadFromFile(data: Str) returns (r: Option<seq<(Str, Record)>>)
    ensures r == ReadSnapshot(data)
  {
    if |data| < 3 || data[0] != 83 || data[1] != 50 || data[2] != 1 { return None; }
    var ok, count, off := ReadLE(data, 3, 4);
    if !ok { return None; }
    assert count == U32At(data, 3);
    var out: seq<(Str, Record)> := [];
    ReadSoFarStart(ReadEntry, data[7..], count);
    while |out| < count
      invariant 0 <= off <= |data| && ReadSoFar(ReadEntry, data[7..], count, out, data[off..])
      decreases count - |out|
    {
      ReadSoFarStep(ReadEntry, data[7..], count, out, data[off..]);
      var e, next := ReadOne(data, off);
      if e.None? { return None; }
      out, off := out + [e.value], next;
    }
    assert out + [] == out;
    r := Some(out);
  }

  // ----- Replacing the file -----

  /** The two names involved: the snapshot itself and the temporary file next to it. */
  datatype Disk = Disk(final: Option<Str>, tmp: Option<Str>)

  class Store {
    var disk: Disk
    /** Every state the disk went through; a crash leaves one of them. */
    ghost var trace: seq<Disk>

    constructor (disk: Disk)
      ensures this.disk == disk && trace == [disk]
    {
      this.disk, trace := disk, [disk];
    }

    method Put(d: Disk)
      modifies this
      ensures disk == d && trace == old(trace) + [d]
    {
      disk, trace := d, trace + [d];
    }

    /** Writes data into the temporary file piece by piece; on an error a part of it may be there. */
    method WriteTmp(data: Str) returns (ok: bool)
      modifies this
      ensures old(trace) < trace && disk == trace[|trace| - 1]
      ensures forall i :: |old(trace)| <= i < |trace| ==> trace[i].final == old(disk).final
      ensures disk.final == old(disk).final
      ensures ok ==> disk.tmp == Some(data)
    {
      Put(disk.(tmp := Some([])));
      var off := 0;
      while off < |data|
        invariant 0 <= off <= |data| && old(trace) < trace && disk == trace[|trace| - 1]
        invariant disk == Disk(old(disk).final, Some(data[..off]))
        invariant forall i :: |old(trace)| <= i < |trace| ==> trace[i].final == old(disk).final
      {
        var w: int :| w <= |data| - off;
        if w <= 0 { return false; }
        off := off + w;
        Put(disk.(tmp := Some(data[..off])));
      }
      assert data[..off] == data;
      ok := true;
    }

    /**
      Temporary file, flush, rename. When the rename goes through, every state a crash can leave has
      the old or the new snapshot under the final name. Otherwise the old file is removed and the
      rename tried again: in between there is no snapshot, and if that fails too there is none at all.
    */
    method WriteToFile(data: Str) returns (ok: bool, ghost fellBack: bool)
      modifies this
      ensures old(trace) <= trace
      ensures !fellBack ==> forall i :: |old(trace)| <= i < |trace| ==>
                trace[i].final == old(disk).final || trace[i].final == Some(data)
      ensures fellBack ==> forall i :: |old(trace)| <= i < |trace| ==>
                trace[i].final == old(disk).final || trace[i].final == Some(data) || trace[i].final == None
      ensures ok ==> disk.final == Some(data)
      ensures !ok && !fellBack ==> disk.final == old(disk).final || disk.final == Some(data)
      ensures disk.final == None && old(disk).final != None ==> fellBack && !ok && disk.tmp == None
    {
      fellBack := false;
      var isOpen: bool := *;
      if !isOpen { return false, false; }
      ok := WriteTmp(data);
      var synced: bool := *;
      if !ok || !synced {
        Put(disk.(tmp := None));
        return false, false;
      }
      var renamed: bool := *;
      if renamed {
        Put(Disk(disk.tmp, None));
      } else {
        fellBack := true;
        var removed: bool := *;
        if removed { Put(disk.(final := None)); }
        var again: bool := *;
        if !again {
          Put(disk.(tmp := None));
          return false, true;
        }
        Put(Disk(disk.tmp, None));
      }
      var dirSynced: bool := *;
      ok := dirSynced;
    }

    /**
      Saving a snapshot, seen from a crash at any point: what is under the final name reads as before
      the call, missing or unreadable included, or as the new records whole; only the fallback can
      leave nothing there.
    */
    method Save(records: seq<(Str, Record)>) returns (ok: bool, ghost fellBack: bool)
      requires Fits(records)
      modifies this
      ensures old(trace) <= trace && (ok ==> Seen(disk) == Some(Some(records)))
      ensures forall i :: |old(trace)| <= i < |trace| ==>
                || Seen(trace[i]) == Seen(old(disk)) || Seen(trace[i]) == Some(Some(records))
                || (fellBack && Seen(trace[i]) == None)
    {
      SnapshotRoundTrip(records);
      var data := WriteSnapshot(records);
      ok, fellBack := WriteToFile(data);
    }
  }

  /** What a reader finds under the final name: nothing, or a file that can be read or not. */
  function Seen(d: Disk): Option<Option<seq<(Str, Record)>>> {
    if d.final.None? then None else Some(ReadSnapshot(d.final.value))
  }
}
