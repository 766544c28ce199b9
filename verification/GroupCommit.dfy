/** Merging queued batches into write buffers, cut by number of events and by encoded size. */
module GroupCommit {
  import opened Bytes
  import opened Model
  import opened Framing
  import opened WalCodec

  function Flatten<M>(batches: seq<seq<M>>): seq<M> {
    if batches == [] then [] else batches[0] + Flatten(batches[1..])
  }

  lemma {:induction false} FlattenAppend<M>(a: seq<seq<M>>, b: seq<seq<M>>)
    ensures Flatten(a + b) == Flatten(a) + Flatten(b)
  {
    if a == [] {
      assert a + b == b;
      assert [] + Flatten(b) == Flatten(b);
    } else {
      FlattenAppend(a[1..], b);
      assert (a + b)[1..] == a[1..] + b;
      SeqAssoc(a[0], Flatten(a[1..]), Flatten(b));
    }
  }

  lemma SeqAssoc<M>(a: seq<M>, b: seq<M>, c: seq<M>)
    ensures a + b + c == a + (b + c)
  {
  }

  lemma FlattenSnoc<M>(a: seq<seq<M>>, b: seq<M>)
    ensures Flatten(a + [b]) == Flatten(a) + b
  {
    FlattenAppend(a, [b]);
    assert [b][1..] == [];
    assert Flatten([b]) == b + Flatten([]) == b;
  }

  /** A buffer stays open while it holds few enough events and few enough bytes; one event always fits. */
  ghost predicate Fits<M(!new)>(enc: M -> Str, g: seq<M>, maxMuts: nat, maxBytes: nat) {
    |g| < maxMuts && (|g| <= 1 || |Encode(enc, g)| <= maxBytes)
  }

  /** A buffer that was written because a limit was reached, and not before. */
  ghost predicate Full<M(!new)>(enc: M -> Str, g: seq<M>, maxMuts: nat, maxBytes: nat) {
    && 0 < |g| <= maxMuts
    && Fits(enc, g[..|g| - 1], maxMuts, maxBytes)
    && !Fits(enc, g, maxMuts, maxBytes)
  }

  /** Events taken in so far: the groups already written and the ones in the open buffer. */
  datatype Split<M> = Split(groups: seq<seq<M>>, open: seq<M>)

  ghost function Add<M(!new)>(enc: M -> Str, s: Split<M>, m: M, maxMuts: nat, maxBytes: nat): Split<M> {
    var g := s.open + [m];
    if Fits(enc, g, maxMuts, maxBytes) then s.(open := g) else Split(s.groups + [g], [])
  }

  ghost function AddAll<M(!new)>(enc: M -> Str, s: Split<M>, ms: seq<M>, maxMuts: nat, maxBytes: nat): Split<M> {
    if ms == [] then s
    else Add(enc, AddAll(enc, s, ms[..|ms| - 1], maxMuts, maxBytes), ms[|ms| - 1], maxMuts, maxBytes)
  }

  lemma {:induction false} AddAllAppend<M(!new)>(enc: M -> Str, s: Split<M>, a: seq<M>, b: seq<M>,
                                                 maxMuts: nat, maxBytes: nat)
    ensures AddAll(enc, s, a + b, maxMuts, maxBytes)
            == AddAll(enc, AddAll(enc, s, a, maxMuts, maxBytes), b, maxMuts, maxBytes)
  {
    if b == [] {
      assert a + b == a;
    } else {
      var n := |b| - 1;
      AddAllAppend(enc, s, a, b[..n], maxMuts, maxBytes);
      assert (a + b)[..|a + b| - 1] == a + b[..n];
    }
  }

  /** The split of ms: nothing lost, nothing reordered, every written group full, the open one not. */
  ghost predicate GoodSplit<M(!new)>(enc: M -> Str, s: Split<M>, ms: seq<M>, maxMuts: nat, maxBytes: nat) {
    && Flatten(s.groups) + s.open == ms
    && (forall i :: 0 <= i < |s.groups| ==> Full(enc, s.groups[i], maxMuts, maxBytes))
    && Fits(enc, s.open, maxMuts, maxBytes)
  }

  lemma AddKeepsSplit<M(!new)>(enc: M -> Str, s: Split<M>, ms: seq<M>, m: M, maxMuts: nat, maxBytes: nat)
    requires maxMuts > 0 && GoodSplit(enc, s, ms, maxMuts, maxBytes)
    ensures GoodSplit(enc, Add(enc, s, m, maxMuts, maxBytes), ms + [m], maxMuts, maxBytes)
  {
    var g := s.open + [m];
    SeqAssoc(Flatten(s.groups), s.open, [m]);
    if !Fits(enc, g, maxMuts, maxBytes) {
      assert g[..|g| - 1] == s.open;
      FlattenSnoc(s.groups, g);
      assert Flatten(s.groups + [g]) + [] == Flatten(s.groups + [g]);
    }
  }

  lemma {:induction false} SplitIsGood<M(!new)>(enc: M -> Str, ms: seq<M>, maxMuts: nat, maxBytes: nat)
    requires maxMuts > 0
    ensures GoodSplit(enc, AddAll(enc, Split([], []), ms, maxMuts, maxBytes), ms, maxMuts, maxBytes)
  {
    if ms != [] {
      var n := |ms| - 1;
      SplitIsGood(enc, ms[..n], maxMuts, maxBytes);
      AddKeepsSplit(enc, AddAll(enc, Split([], []), ms[..n], maxMuts, maxBytes), ms[..n], ms[n], maxMuts, maxBytes);
      assert ms[..n] + [ms[n]] == ms;
    }
  }

  /** The drain loop's variables stand for the split s. */
  ghost predicate Stands<M(!new)>(enc: M -> Str, s: Split<M>, writes: seq<Str>, buf: Str, inBuf: nat) {
    && |writes| == |s.groups| && (forall i :: 0 <= i < |writes| ==> writes[i] == Encode(enc, s.groups[i]))
    && buf == Encode(enc, s.open) && inBuf == |s.open|
  }

  lemma StandsStep<M(!new)>(enc: M -> Str, s: Split<M>, writes: seq<Str>, buf: Str, inBuf: nat, m: M,
                            maxMuts: nat, maxBytes: nat)
    requires Stands(enc, s, writes, buf, inBuf) && forall x :: enc(x) != []
    ensures var s', buf' := Add(enc, s, m, maxMuts, maxBytes), buf + enc(m);
            if inBuf + 1 >= maxMuts || (|buf'| > maxBytes && |buf| > 0)
            then Stands(enc, s', writes + [buf'], [], 0)
            else Stands(enc, s', writes, buf', inBuf + 1)
  {
    EncodeSnoc(enc, s.open, m);
  }

  /** The body of the drain loop: append one event, write the buffer out once a limit is reached. */
  method Take(m: Mutation, maxMuts: nat, maxBytes: nat, writes0: seq<Str>, buf0: Str, inBuf0: nat,
              ghost s: Split<Mutation>)
    returns (writes: seq<Str>, buf: Str, inBuf: nat)
    requires Stands(EncodeMutation, s, writes0, buf0, inBuf0)
    ensures Stands(EncodeMutation, Add(EncodeMutation, s, m, maxMuts, maxBytes), writes, buf, inBuf)
  {
    StandsStep(EncodeMutation, s, writes0, buf0, inBuf0, m, maxMuts, maxBytes);
    writes := writes0;
    buf := AppendMutation(buf0, m);
    inBuf := inBuf0 + 1;
    if inBuf >= maxMuts || (|buf| > maxBytes && |buf0| > 0) {
      writes, buf, inBuf := writes + [buf], [], 0;
    }
  }

  method TakeBatch(b: seq<Mutation>, maxMuts: nat, maxBytes: nat, writes0: seq<Str>, buf0: Str, inBuf0: nat,
                   ghost s0: Split<Mutation>)
    returns (writes: seq<Str>, buf: Str, inBuf: nat)
    requires Stands(EncodeMutation, s0, writes0, buf0, inBuf0)
    ensures Stands(EncodeMutation, AddAll(EncodeMutation, s0, b, maxMuts, maxBytes), writes, buf, inBuf)
  {
    writes, buf, inBuf := writes0, buf0, inBuf0;
    ghost var s := s0;
    for j := 0 to |b|
      invariant Stands(EncodeMutation, s, writes, buf, inBuf)
      invariant s == AddAll(EncodeMutation, s0, b[..j], maxMuts, maxBytes)
    {
      writes, buf, inBuf := Take(b[j], maxMuts, maxBytes, writes, buf, inBuf, s);
      s := Add(EncodeMutation, s, b[j], maxMuts, maxBytes);
      assert b[..j + 1][..j] == b[..j];
    }
    assert b[..|b|] == b;
  }

  /** Buffers and their groups: none empty, all full except possibly the last. */
  ghost predicate Grouped<M(!new)>(enc: M -> Str, writes: seq<Str>, groups: seq<seq<M>>, maxMuts: nat, maxBytes: nat) {
    && |writes| == |groups|
    && forall i :: 0 <= i < |groups| ==>
         && writes[i] == Encode(enc, groups[i]) && groups[i] != []
         && (Full(enc, groups[i], maxMuts, maxBytes) || (i == |groups| - 1 && Fits(enc, groups[i], maxMuts, maxBytes)))
  }

  /**
    In plain numbers: no group has more than maxMuts events, and without its last event none of three or
    more takes more than maxBytes. All but the last one have exactly maxMuts events or, with two or more,
    more than maxBytes.
  */
  lemma GroupLimits<M(!new)>(enc: M -> Str, writes: seq<Str>, groups: seq<seq<M>>, maxMuts: nat, maxBytes: nat, i: nat)
    requires Grouped(enc, writes, groups, maxMuts, maxBytes) && i < |groups|
    ensures 1 <= |groups[i]| <= maxMuts && writes[i] == Encode(enc, groups[i])
    ensures |groups[i]| >= 3 ==> |Encode(enc, groups[i][..|groups[i]| - 1])| <= maxBytes
    ensures i < |groups| - 1 ==> |groups[i]| == maxMuts || (|groups[i]| >= 2 && |writes[i]| > maxBytes)
  {
    var g, n := groups[i], |groups[i]| - 1;
    EncodeSnoc(enc, g[..n], g[n]);
    assert g[..n] + [g[n]] == g;
  }

  lemma FinishGroups<M(!new)>(enc: M -> Str, s: Split<M>, ms: seq<M>, writes: seq<Str>, buf: Str, inBuf: nat,
                              maxMuts: nat, maxBytes: nat)
    requires GoodSplit(enc, s, ms, maxMuts, maxBytes) && Stands(enc, s, writes, buf, inBuf)
    requires forall x :: enc(x) != []
    ensures var w := if buf != [] then writes + [buf] else writes;
            var g := if buf != [] then s.groups + [s.open] else s.groups;
            Flatten(g) == ms && Concat(w) == Encode(enc, ms) && Grouped(enc, w, g, maxMuts, maxBytes)
  {
    FlattenSnoc(s.groups, s.open);
    assert buf == [] <==> s.open == [];
    if buf != [] {
      BuffersConcatenate(enc, writes + [buf], s.groups + [s.open]);
    } else {
      assert Flatten(s.groups) + [] == Flatten(s.groups);
      BuffersConcatenate(enc, writes, s.groups);
    }
  }

  lemma {:induction false} BuffersConcatenate<M>(enc: M -> Str, writes: seq<Str>, groups: seq<seq<M>>)
    requires |writes| == |groups| && forall i :: 0 <= i < |groups| ==> writes[i] == Encode(enc, groups[i])
    ensures Concat(writes) == Encode(enc, Flatten(groups))
  {
    if groups != [] {
      BuffersConcatenate(enc, writes[1..], groups[1..]);
      EncodeAppend(enc, groups[0], Flatten(groups[1..]));
    }
  }

  /**
    Drains the batches taken from the queue; a configured limit of zero counts as one. The buffers
    written are the events in order, cut into groups; every group but the last is as long as the limits
    allow, and the last one is whatever remains.
  */
  method Drain(local: seq<seq<Mutation>>, maxMutations: nat, maxBytesOption: nat)
    returns (writes: seq<Str>, ghost groups: seq<seq<Mutation>>)
    ensures Flatten(groups) == Flatten(local)
    ensures Concat(writes) == EncodeBatch(Flatten(local))
    ensures var maxMuts := if maxMutations > 0 then maxMutations else 1;
            var maxBytes := if maxBytesOption > 0 then maxBytesOption else 1;
            Grouped(EncodeMutation, writes, groups, maxMuts, maxBytes)
  {
    var maxMuts := if maxMutations > 0 then maxMutations else 1;
    var maxBytes := if maxBytesOption > 0 then maxBytesOption else 1;
    var buf, inBuf := [], 0;
    writes := [];
    ghost var s := Split([], []);
    for i := 0 to |local|
      invariant Stands(EncodeMutation, s, writes, buf, inBuf)
      invariant s == AddAll(EncodeMutation, Split([], []), Flatten(local[..i]), maxMuts, maxBytes)
    {
      assert local[..i + 1] == local[..i] + [local[i]];
      FlattenSnoc(local[..i], local[i]);
      AddAllAppend(EncodeMutation, Split([], []), Flatten(local[..i]), local[i], maxMuts, maxBytes);
      writes, buf, inBuf := TakeBatch(local[i], maxMuts, maxBytes, writes, buf, inBuf, s);
      s := AddAll(EncodeMutation, s, local[i], maxMuts, maxBytes);
    }
    assert local[..|local|] == local;
    SplitIsGood(EncodeMutation, Flatten(local), maxMuts, maxBytes);
    FinishGroups(EncodeMutation, s, Flatten(local), writes, buf, inBuf, maxMuts, maxBytes);
    groups := s.groups;
    if buf != [] {
      writes, groups := writes + [buf], groups + [s.open];
    }
  }
}
