/** Appending to the log with size-limited files: a full file is renamed to the next number. */
module WalWriter {
  import opened Bytes
  import opened Model
  import opened Framing
  import opened Segments
  import opened WalCodec
  import opened WalReader
  import opened Rotation
  import opened DataValueCodec
  import opened RecordCodec

  /** The largest number in use, or 0. */
  function MaxSuffix(numbers: set<nat>): (m: nat)
    ensures forall n :: n in numbers ==> n <= m
    ensures m == 0 || m in numbers
  {
    if numbers == {} then 0
    else
      MaxExists(numbers);
      var m :| m in numbers && forall n :: n in numbers ==> n <= m;
      m
  }

  lemma {:induction false} MaxExists(s: set<nat>)
    requires s != {}
    ensures exists m :: m in s && forall n :: n in s ==> n <= m
    decreases |s|
  {
    var x :| x in s;
    if s - {x} == {} {
      assert s == {x};
    } else {
      MaxExists(s - {x});
      var y :| y in s - {x} && forall n :: n in s - {x} ==> n <= y;
      var m := if x <= y then y else x;
      assert forall n :: n in s ==> n == x || n in s - {x};
      assert m in s && forall n :: n in s ==> n <= m;
    }
  }

  /** The archived files numbered below n, in ascending order. */
  function Below(archive: map<nat, Str>, n: nat): seq<Str> {
    if n == 0 then []
    else Below(archive, n - 1) + if n - 1 in archive then [archive[n - 1]] else []
  }

  lemma {:induction false} BelowUnchanged(archive: map<nat, Str>, n: nat, m: nat, file: Str)
    requires n <= m
    ensures Below(archive[m := file], n) == Below(archive, n)
  {
    if n > 0 { BelowUnchanged(archive, n - 1, m, file); }
  }

  /** All archived files in ascending order of number. */
  function Numbered(archive: map<nat, Str>): seq<Str> { Below(archive, MaxSuffix(archive.Keys) + 1) }

  /** The files a chain read visits: the archives, then the primary file if it exists. */
  function ChainFiles(archive: map<nat, Str>, primary: Option<Str>): seq<Str> {
    Numbered(archive) + if primary.Some? then [primary.value] else []
  }

  lemma RotateKeepsOrder(archive: map<nat, Str>, primary: Str)
    ensures var next := MaxSuffix(archive.Keys) + 1;
            && next !in archive
            && ChainFiles(archive[next := primary], None) == ChainFiles(archive, Some(primary))
            && ChainFiles(archive[next := primary], Some([])) == ChainFiles(archive, Some(primary)) + [[]]
  {
    var next := MaxSuffix(archive.Keys) + 1;
    var archive' := archive[next := primary];
    assert next in archive'.Keys && MaxSuffix(archive'.Keys) == next;
    BelowUnchanged(archive, next, next, primary);
  }

  /** Full files followed by a last, non-full one are the blocks of their concatenation. */
  ghost predicate Filled(files: seq<Str>, size: nat) {
    && Packed(files, size)
    && (|files| > 1 ==> files[|files| - 1] != [])
  }

  ghost predicate Packed(files: seq<Str>, size: nat) {
    && files != []
    && |files[|files| - 1]| <= size
    && forall i :: 0 <= i < |files| - 1 ==> |files[i]| == size
  }

  lemma {:induction false} FilledAreBlocks(files: seq<Str>, size: nat)
    requires size > 0 && Filled(files, size)
    ensures files == Blocks(Concat(files), size)
  {
    if |files| == 1 {
      assert files[1..] == [];
      Unit(files[0]);
    } else {
      var rest := files[1..];
      assert Filled(rest, size);
      FilledAreBlocks(rest, size);
      SplitFront(files[0], Concat(rest), size);
      NonEmptyConcat(rest);
    }
  }

  lemma NonEmptyConcat(files: seq<Str>)
    requires files != [] && files[|files| - 1] != []
    ensures |Concat(files)| > 0
  {
    var k := |files| - 1;
    assert files == files[..k] + [files[k]];
    ConcatSnoc(files[..k], files[k]);
  }

  /**
    A log written from scratch under a size limit reads back through the chain exactly when every
    multiple of the limit inside it is the end of an event.
  */
  lemma RotatedLogReadsBackIff(files: seq<Str>, ms: seq<Mutation>, limit: nat)
    requires limit > 0 && AllWellFormed(ms)
    requires Filled(files, limit) && Concat(files) == EncodeBatch(ms)
    ensures ReadChain(files) == Some(ms) <==> CutsAligned(EncodeMutation, ms, limit)
  {
    FilledAreBlocks(files, limit);
    ChainReadIff(files, ms);
    BlocksOnBoundariesIff(EncodeMutation, ms, limit);
  }

  /** One event longer than a file may be is cut, whatever its limit, and does not come back. */
  lemma LongEventDoesNotReadBack(files: seq<Str>, m: Mutation, limit: nat)
    requires 0 < limit < |EncodeMutation(m)| && WellFormed(m)
    requires Filled(files, limit) && Concat(files) == EncodeBatch([m])
    ensures ReadChain(files) != Some([m])
  {
    var ms := [m];
    EncodeSnoc(EncodeMutation, [], m);
    assert [] + [m] == ms && ms[..0] == [] && ms[..1] == ms;
    assert IsMultiple(0, limit) && IsMultiple(limit, limit);
    assert !IsBoundary(EncodeMutation, ms, limit);
    RotatedLogReadsBackIff(files, ms, limit);
  }

  /** For example a SET of a value of 1 MiB under a limit of 1 MiB. */
  lemma MebibyteSetIsTooLong(key: Str, value: Str, now: i64)
    requires |key| < U32 && 0x10_0000 <= |value| < 0x8000_0000
    ensures var m := Mutation(PUT, key, Some(Record(StringV(value), -1, 0)), now);
            WellFormed(m) && |EncodeMutation(m)| > 0x10_0000
  {
    var r := Record(StringV(value), -1, 0);
    assert |Payload(r.value)| == 4 + |value| && |EncodeRecord(r)| == 33 + |Payload(r.value)|;
  }

  /** Once its last file is filled up, a packed chain holds a multiple of the limit. */
  lemma {:induction false} PackedSize(files: seq<Str>, limit: nat)
    requires limit > 0 && Packed(files, limit)
    ensures IsMultiple(|Concat(files)| + Room(files[|files| - 1], limit), limit)
  {
    if |files| == 1 {
      assert files[1..] == [];
      Unit(files[0]);
      assert IsMultiple(limit - limit, limit);
    } else {
      PackedSize(files[1..], limit);
      var rest := |Concat(files[1..])| + Room(files[|files| - 1], limit);
      assert rest + limit - limit == rest;
    }
  }

  /** The files are as they should be, but for a new one that is still empty. */
  ghost predicate Laid(files: seq<Str>, spec: seq<Str>, limit: nat) {
    || files == spec
    || (files == spec + [[]] && spec != [] && !HasRoom(spec[|spec| - 1], limit))
  }

  lemma LaidRotate(files: seq<Str>, spec: seq<Str>, limit: nat)
    requires files != [] && limit > 0 && Laid(files, spec, limit) && !HasRoom(files[|files| - 1], limit)
    ensures files == spec && Laid(files + [[]], spec, limit)
  {
  }

  lemma SameSnoc<T>(a: seq<T>, x: T, b: seq<T>, y: T)
    requires a + [x] == b + [y]
    ensures a == b && x == y
  {
    assert |a| == |b| && (a + [x])[|a|] == x && (b + [y])[|b|] == y;
    assert a == (a + [x])[..|a|] && b == (b + [y])[..|b|];
  }

  lemma {:induction false} PutPacked(files: seq<Str>, data: Str, limit: nat)
    requires limit > 0 && Packed(files, limit)
    ensures Packed(Put(files, data, limit), limit) && (data != [] ==> Filled(Put(files, data, limit), limit))
    decreases |data|
  {
    if data != [] { PutPacked(files, data[..|data| - 1], limit); }
  }

  lemma LaidPacked(files: seq<Str>, before: seq<Str>, data: Str, limit: nat)
    requires limit > 0 && Packed(before, limit) && Laid(files, Put(before, data, limit), limit)
    ensures Packed(files, limit)
  {
    PutPacked(before, data, limit);
  }

  lemma LaidWrite(front: seq<Str>, last: Str, spec: seq<Str>, chunk: Str, limit: nat)
    requires spec != [] && Laid(front + [last], spec, limit) && HasRoom(last, limit)
    requires limit == 0 || |last| + |chunk| <= limit
    ensures Laid(front + [last + chunk], Put(spec, chunk, limit), limit)
    ensures chunk != [] ==> front + [last + chunk] == Put(spec, chunk, limit)
  {
    if chunk == [] {
      Unit(last);
    } else if front + [last] == spec {
      PutFits(front, last, chunk, limit);
    } else {
      SameSnoc(front, last, spec, []);
      Unit(chunk);
      PutFresh(spec, chunk, limit);
    }
  }

  class Writer {
    const limit: nat
    var archive: map<nat, Str>
    /** The primary file; there is none between a rename and the open that follows it. */
    var primary: Option<Str>
    var isOpen: bool

    ghost predicate Valid()
      reads this
    {
      isOpen ==> primary.Some?
    }

    /** Opening creates the primary file or appends to what it holds; it may fail. */
    constructor (limit: nat, archive: map<nat, Str>, primary: Option<Str>, opens: bool)
      ensures Valid() && this.limit == limit && this.archive == archive && isOpen == opens
      ensures this.primary == if opens && primary.None? then Some([]) else primary
    {
      this.limit, this.archive, this.isOpen := limit, archive, opens;
      this.primary := if opens && primary.None? then Some([]) else primary;
    }

    ghost function Files(): seq<Str>
      reads this
    {
      ChainFiles(archive, primary)
    }

    ghost function All(): Str
      reads this
    {
      Concat(Files())
    }

    /** The kernel may take fewer bytes than offered, or fail; k bytes reach the file. */
    method WriteAll(data: Str) returns (ok: bool, ghost k: nat)
      requires primary.Some?
      modifies this`primary
      ensures k <= |data| && (ok <==> k == |data|)
      ensures primary == Some(old(primary).value + data[..k])
    {
      var off := 0;
      Unit(primary.value);
      assert data[..0] == [];
      while off < |data|
        invariant 0 <= off <= |data| && primary == Some(old(primary).value + data[..off])
      {
        var w: int :| w <= |data| - off;
        if w <= 0 { return false, off; }
        Assoc(old(primary).value, data[..off], data[off..off + w]);
        assert data[..off] + data[off..off + w] == data[..off + w];
        primary := Some(primary.value + data[off..off + w]);
        off := off + w;
      }
      ok, k := true, off;
    }

    /**
      Renames a non-empty primary file to the next number and starts an empty one. After a failed
      rename nothing has changed; after a failed open the primary file is missing, and all its bytes
      are under the new number.
    */
    method Rotate() returns (ok: bool)
      requires primary.Some? && primary.value != []
      modifies this`archive, this`primary, this`isOpen
      ensures Valid() && isOpen == ok
      ensures ok ==> Files() == old(Files()) + [[]] && primary == Some([])
      ensures !ok ==> Files() == old(Files())
      ensures (archive == old(archive) && primary == old(primary) && !ok) ||
              (archive == old(archive)[MaxSuffix(old(archive).Keys) + 1 := old(primary).value]
               && primary == if ok then Some([]) else None)
    {
      isOpen := false;
      var renamed: bool := *;
      if !renamed { return false; }
      RotateKeepsOrder(archive, primary.value);
      archive := archive[MaxSuffix(archive.Keys) + 1 := primary.value];
      primary := None;
      ok := *;
      if ok { isOpen, primary := true, Some([]); }
    }

    /** Writing at the end of the last file appends to the whole chain. */
    lemma AppendToLast(before: Str, more: Str)
      requires primary == Some(before + more)
      ensures Concat(Files()) == Concat(ChainFiles(archive, Some(before))) + more
      ensures Files() == ChainFiles(archive, Some(before))[..|Files()| - 1] + [before + more]
    {
      var numbered := Numbered(archive);
      ConcatSnoc(numbered, before + more);
      ConcatSnoc(numbered, before);
      Assoc(Concat(numbered), before, more);
    }

    /** Writes as much of data as the current file has room for. */
    method WriteRoom(data: Str) returns (ok: bool, chunk: nat, ghost k: nat)
      requires data != [] && primary.Some? && |primary.value| < limit
      modifies this`primary
      ensures 0 < chunk <= |data| && k <= chunk && (ok <==> k == chunk)
      ensures All() == old(All()) + data[..k] && |old(primary).value| + k <= limit
      ensures primary == Some(old(primary).value + data[..k])
      ensures Packed(old(Files()), limit) ==> Packed(Files(), limit) && (ok ==> Filled(Files(), limit))
    {
      var room := limit - |primary.value|;
      chunk := if |data| < room then |data| else room;
      ok, k := WriteAll(data[..chunk]);
      assert data[..chunk][..k] == data[..k];
      AppendToLast(old(primary).value, data[..k]);
    }

    /**
      The files numbered since the archive was before and the primary file was first: the first one may
      be an old file that was too large already, all others hold exactly limit bytes.
    */
    ghost predicate NewFilesFull(before: map<nat, Str>, first: Option<Str>)
      reads this
    {
      && (forall n :: n in before ==> n in archive && archive[n] == before[n])
      && (forall n :: n in archive && n !in before ==>
            |archive[n]| == limit || (first == Some(archive[n]) && |archive[n]| > limit))
    }

    /** One turn of the loop with a full primary file. */
    method RotateFull(ghost before: map<nat, Str>, ghost first: Option<Str>) returns (ok: bool)
      requires primary.Some? && |primary.value| >= limit > 0 && NewFilesFull(before, first)
      requires |primary.value| == limit || primary == first
      modifies this`archive, this`primary, this`isOpen
      ensures Valid() && isOpen == ok && All() == old(All()) && NewFilesFull(before, first)
      ensures Files() == if ok then old(Files()) + [[]] else old(Files())
      ensures ok ==> primary == Some([]) && (Packed(old(Files()), limit) ==> Packed(Files(), limit))
      ensures !ok ==> primary == None || (primary == old(primary) && Files() == old(Files()))
    {
      ghost var files := Files();
      RotateKeepsOrder(archive, primary.value);
      ok := Rotate();
      ConcatSnoc(files, []);
      Unit(Concat(files));
    }

    /**
      Appends data, rotating whenever the file is full. k is the number of bytes that got in; no older
      file changes, and the files filled on the way and the last one keep the limit, whatever was there.
      A crash in the middle leaves what some failure at that point would have left. The files are those
      that putting the bytes one by one behind the old ones gives, but for a new one still empty.
    */
    method AppendBytes(data: Str) returns (ok: bool, ghost k: nat)
      requires Valid()
      modifies this`archive, this`primary, this`isOpen
      ensures Valid() && k <= |data| && (ok ==> isOpen && k == |data|) && All() == old(All()) + data[..k]
      ensures NewFilesFull(old(archive), old(primary))
      ensures limit > 0 && primary != old(primary) && primary.Some? ==> |primary.value| <= limit
      ensures limit == 0 || data == [] ==> archive == old(archive) && (primary.Some? <==> old(primary).Some?)
      ensures data == [] ==> primary == old(primary)
      ensures limit > 0 && primary.Some? && Packed(old(Files()), limit) ==> Packed(Files(), limit)
      ensures ok && limit > 0 && data != [] && Packed(old(Files()), limit) ==> Filled(Files(), limit)
      ensures old(primary).Some? ==> Placed(old(Files()), data[..k], ok)
    {
      k := 0;
      Unit(All());
      assert data[..0] == [];
      if !isOpen { return false, 0; }
      if data == [] { return true, 0; }
      if limit == 0 {
        ok, k := WriteAll(data);
        AppendToLast(old(primary).value, data[..k]);
        PutFits(Numbered(archive), old(primary).value, data[..k], limit);
      } else {
        ok, k := AppendRotating(data);
      }
    }

    /** Where data has gone behind the files there were; a missing primary file leaves nothing out. */
    ghost predicate Placed(before: seq<Str>, data: Str, exact: bool)
      reads this
    {
      && before != [] && Laid(Files(), Put(before, data, limit), limit)
      && (exact || primary.None? ==> Files() == Put(before, data, limit))
    }

    /** An append under a limit. */
    method AppendRotating(data: Str) returns (ok: bool, ghost k: nat)
      requires isOpen && primary.Some? && limit > 0 && data != []
      modifies this`archive, this`primary, this`isOpen
      ensures Valid() && k <= |data| && (ok ==> isOpen && k == |data|) && All() == old(All()) + data[..k]
      ensures NewFilesFull(old(archive), old(primary))
      ensures primary != old(primary) && primary.Some? ==> |primary.value| <= limit
      ensures primary.Some? && Packed(old(Files()), limit) ==> Packed(Files(), limit)
      ensures ok && Packed(old(Files()), limit) ==> Filled(Files(), limit)
      ensures Placed(old(Files()), data[..k], ok)
    {
      ok, k := RotatingLoop(data);
      if Packed(old(Files()), limit) {
        LaidPacked(Files(), old(Files()), data[..k], limit);
        PutPacked(old(Files()), data[..k], limit);
      }
    }

    /** One turn of the loop with room in the primary file; k is how far it got. */
    method WriteTurn(data: Str, off: nat, ghost before: seq<Str>, ghost all: Str)
      returns (ok: bool, next: nat, ghost k: nat)
      requires off < |data| && primary.Some? && |primary.value| < limit
      requires All() == all + data[..off] && Placed(before, data[..off], false)
      modifies this`primary
      ensures off < next <= |data| && k <= next && (ok <==> k == next) && primary.Some? && |primary.value| <= limit
      ensures All() == all + data[..k] && Placed(before, data[..k], ok)
    {
      var chunk;
      ghost var wrote;
      ghost var front, last := Numbered(archive), primary.value;
      ok, chunk, wrote := WriteRoom(data[off..]);
      next, k := off + chunk, off + wrote;
      SplitAppend(all, data, off, wrote);
      PlacedMore(before, front, last, data, off, wrote, limit);
    }

    method RotatingLoop(data: Str) returns (ok: bool, ghost k: nat)
      requires isOpen && primary.Some? && limit > 0 && data != []
      modifies this`archive, this`primary, this`isOpen
      ensures Valid() && k <= |data| && (ok ==> isOpen && k == |data|) && All() == old(All()) + data[..k]
      ensures NewFilesFull(old(archive), old(primary)) && Placed(old(Files()), data[..k], ok)
      ensures primary != old(primary) && primary.Some? ==> |primary.value| <= limit
    {
      var off := 0;
      Unit(All());
      assert data[..0] == [];
      while off < |data|
        invariant 0 <= off <= |data| && All() == old(All()) + data[..off] && isOpen && primary.Some?
        invariant NewFilesFull(old(archive), old(primary)) && (primary == old(primary) || |primary.value| <= limit)
        invariant Placed(old(Files()), data[..off], off == |data|)
        decreases |data| - off, if |primary.value| >= limit then 1 else 0
      {
        var statFails: bool := *;
        if statFails { return false, off; }
        if |primary.value| >= limit {
          LaidRotate(Files(), Put(old(Files()), data[..off], limit), limit);
          ok := RotateFull(old(archive), old(primary));
          if !ok { return false, off; }
        } else {
          var next;
          ok, next, k := WriteTurn(data, off, old(Files()), old(All()));
          if !ok { return; }
          off := next;
        }
      }
      ok, k := true, off;
    }
  }

  lemma SplitAppend(all: Str, data: Str, off: nat, n: nat)
    requires off + n <= |data|
    ensures all + data[..off] + data[off..][..n] == all + data[..off + n]
  {
    Assoc(all, data[..off], data[off..][..n]);
    assert data[..off] + data[off..][..n] == data[..off + n];
  }

  lemma PlacedMore(files: seq<Str>, front: seq<Str>, last: Str, data: Str, off: nat, n: nat, limit: nat)
    requires files != [] && off + n <= |data| && HasRoom(last, limit) && (limit == 0 || |last| + n <= limit)
    requires Laid(front + [last], Put(files, data[..off], limit), limit)
    ensures var after := front + [last + data[off..][..n]];
            && Laid(after, Put(files, data[..off + n], limit), limit)
            && (n > 0 ==> after == Put(files, data[..off + n], limit))
  {
    var chunk := data[off..][..n];
    LaidWrite(front, last, Put(files, data[..off], limit), chunk, limit);
    PutAppend(files, data[..off], chunk, limit);
    assert data[..off] + chunk == data[..off + n];
  }
}
