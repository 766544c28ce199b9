/**
  Several savers at once: the periodic thread and SNAPSHOT commands write through one temporary name,
  and no lock keeps them apart.
*/
module SnapshotSavers {
  import opened Bytes
  import opened Schedules

  /** Where a saver is. It writes to the file it has opened, whatever name that has by now. */
  datatype Saver =
    | Idle
    | Writing(file: nat, data: Str, off: nat)
    | Synced(data: Str)
    | Refused(data: Str)  // its rename has failed
    | Removed(data: Str)  // and it has removed what was under the final name

  /** The two names, the files they stand for, the savers, and all contents ever meant to be under the final name. */
  datatype State = State(final: Option<nat>, tmp: Option<nat>, files: seq<Str>, savers: seq<Saver>, known: set<Str>)

  datatype Step =
    | Begin(i: nat, data: Str)   // opens the temporary file, which empties it
    | Write(i: nat, n: nat)      // n more bytes, at the saver's own position
    | Abandon(i: nat)            // a write error
    | Sync(i: nat, ok: bool)
    | Rename(i: nat, ok: bool)
    | Remove(i: nat, ok: bool)
    | RenameAgain(i: nat, ok: bool)

  /** b with chunk written at off; a gap is filled with zeros. */
  function Overlay(b: Str, off: nat, chunk: Str): Str {
    (if off <= |b| then b[..off] else b + seq(off - |b|, _ => 0)) + chunk +
    (if off + |chunk| < |b| then b[off + |chunk|..] else [])
  }

  predicate Enabled(s: State, t: Step) {
    && t.i < |s.savers|
    && match t
       case Begin(i, _) => s.savers[i].Idle?
       case Write(i, n) => s.savers[i].Writing? && 0 < n && s.savers[i].off + n <= |s.savers[i].data|
       case Abandon(i) => s.savers[i].Writing?
       case Sync(i, _) => s.savers[i].Writing? && s.savers[i].off == |s.savers[i].data|
       case Rename(i, _) => s.savers[i].Synced?
       case Remove(i, _) => s.savers[i].Refused?
       case RenameAgain(i, _) => s.savers[i].Removed?
  }

  function Do(s: State, t: Step): State
    requires Enabled(s, t)
  {
    var sv := s.savers[t.i];
    match t
    case Begin(i, data) =>
      var file := if s.tmp.Some? then s.tmp.value else |s.files|;
      s.(tmp := Some(file), files := if file < |s.files| then s.files[file := []] else s.files + [[]],
         savers := s.savers[i := Writing(file, data, 0)], known := s.known + {data})
    case Write(i, n) =>
      var chunk := sv.data[sv.off..sv.off + n];
      s.(files := if sv.file < |s.files| then s.files[sv.file := Overlay(s.files[sv.file], sv.off, chunk)] else s.files,
         savers := s.savers[i := sv.(off := sv.off + n)])
    case Abandon(i) => s.(tmp := None, savers := s.savers[i := Idle])
    case Sync(i, ok) =>
      if ok && s.tmp.Some? then s.(savers := s.savers[i := Synced(sv.data)])
      else s.(tmp := None, savers := s.savers[i := Idle])
    case Rename(i, ok) =>
      if ok && s.tmp.Some? then s.(final := s.tmp, tmp := None, savers := s.savers[i := Idle])
      else s.(savers := s.savers[i := Refused(sv.data)])
    case Remove(i, ok) => s.(final := if ok then None else s.final, savers := s.savers[i := Removed(sv.data)])
    case RenameAgain(i, ok) =>
      if ok && s.tmp.Some? then s.(final := s.tmp, tmp := None, savers := s.savers[i := Idle])
      else s.(tmp := None, savers := s.savers[i := Idle])
  }

  function Next(s: State, t: Step): State { if Enabled(s, t) then Do(s, t) else s }

  function After(s: State, ts: seq<Step>): State { Run(Next, s, ts) }

  // ----- One at a time -----

  /** Under the final name there is nothing, or something whole that was meant to be there. */
  ghost predicate Whole(s: State) {
    s.final.Some? ==> s.final.value < |s.files| && s.files[s.final.value] in s.known
  }

  ghost predicate Tidy(s: State) {
    Whole(s) && (s.tmp.Some? ==> s.tmp.value < |s.files| && s.tmp != s.final)
  }

  /** The temporary file holds what this saver has written, and nothing else. */
  ghost predicate Owns(s: State, sv: Saver) {
    && !sv.Idle? && s.tmp.Some? && s.tmp.value < |s.files| && sv.data in s.known
    && if sv.Writing? then sv.off <= |sv.data| && s.tmp.value == sv.file && s.files[sv.file] == sv.data[..sv.off]
       else s.files[s.tmp.value] == sv.data
  }

  ghost predicate OthersIdle(s: State, i: nat) {
    forall j :: 0 <= j < |s.savers| && j != i ==> s.savers[j].Idle?
  }

  /** At most one saver is at work, and the temporary file is its own. */
  ghost predicate Alone(s: State) {
    && Tidy(s)
    && forall i: nat :: i < |s.savers| && !s.savers[i].Idle? ==> OthersIdle(s, i) && Owns(s, s.savers[i])
  }

  predicate AllIdle(s: State) { forall i :: 0 <= i < |s.savers| ==> s.savers[i].Idle? }

  /** No save begins while another is under way. */
  ghost predicate Serial(s: State, ts: seq<Step>) {
    ts != [] ==>
      var n := |ts| - 1;
      Serial(s, ts[..n]) && (ts[n].Begin? ==> AllIdle(After(s, ts[..n])))
  }

  ghost predicate NoRenameFails(ts: seq<Step>) {
    forall i :: 0 <= i < |ts| ==> (ts[i].Rename? ==> ts[i].ok)
  }

  lemma AppendChunk(data: Str, off: nat, n: nat)
    requires off + n <= |data|
    ensures Overlay(data[..off], off, data[off..off + n]) == data[..off + n]
  {
    assert data[..off][..off] == data[..off];
  }

  lemma StepStaysAlone(s: State, t: Step)
    requires Alone(s) && Enabled(s, t) && (t.Begin? ==> AllIdle(s))
    ensures Alone(Do(s, t))
    ensures s.final.Some? && !t.Remove? ==> Do(s, t).final.Some?
  {
    if t.Write? { AppendChunk(s.savers[t.i].data, s.savers[t.i].off, t.n); }
  }

  ghost predicate NoneRefused(s: State) {
    forall i :: 0 <= i < |s.savers| ==> !s.savers[i].Refused? && !s.savers[i].Removed?
  }

  lemma StepIsNotRefused(s: State, t: Step)
    requires Alone(s) && NoneRefused(s) && Enabled(s, t) && (t.Rename? ==> t.ok)
    ensures NoneRefused(Do(s, t)) && !t.Remove?
  {
  }

  /**
    Saves that do not overlap, over every run: at every moment what is under the final name is whole, and
    if no rename fails a snapshot that was there does not go away.
  */
  lemma {:induction false} SerialSavesAreAtomic(s: State, ts: seq<Step>)
    requires Tidy(s) && AllIdle(s) && Serial(s, ts)
    ensures Alone(After(s, ts)) && Whole(After(s, ts))
    ensures NoRenameFails(ts) ==> NoneRefused(After(s, ts)) && (s.final.Some? ==> After(s, ts).final.Some?)
  {
    if ts != [] {
      var n := |ts| - 1;
      SerialSavesAreAtomic(s, ts[..n]);
      var mid, t := After(s, ts[..n]), ts[n];
      if Enabled(mid, t) {
        StepStaysAlone(mid, t);
        if NoRenameFails(ts) { StepIsNotRefused(mid, t); }
      }
    }
  }

  // ----- Two at a time -----

  /** What is left of a save in progress. */
  function Rest(sv: Saver): nat { if sv.Writing? && sv.off <= |sv.data| then |sv.data| - sv.off else 0 }

  /** A second save begins beside saver i, both write all they have and sync, and then both rename. */
  function Overlapping(s: State, i: nat, j: nat, data: Str, ok: bool): (ts: seq<Step>)
    requires i < |s.savers| && j < |s.savers|
  {
    [Begin(j, data), Write(j, |data|), Write(i, Rest(s.savers[i]))] +
    [Sync(i, true), Sync(j, true), Rename(i, true)] +
    [Rename(j, true), Remove(j, true), RenameAgain(j, ok)]
  }

  lemma OverlappingRuns(s: State, i: nat, j: nat, data: Str, ok: bool)
    requires i < |s.savers| && j < |s.savers|
    ensures After(s, Overlapping(s, i, j, data, ok)) ==
            var a := Next(Next(Next(s, Begin(j, data)), Write(j, |data|)), Write(i, Rest(s.savers[i])));
            var b := Next(Next(Next(a, Sync(i, true)), Sync(j, true)), Rename(i, true));
            Next(Next(Next(b, Rename(j, true)), Remove(j, true)), RenameAgain(j, ok))
  {
    var w, r, q := [Begin(j, data), Write(j, |data|), Write(i, Rest(s.savers[i]))],
                   [Sync(i, true), Sync(j, true), Rename(i, true)],
                   [Rename(j, true), Remove(j, true), RenameAgain(j, ok)];
    RunAppend(Next, s, w + r, q);
    RunAppend(Next, s, w, r);
    RunThree(Next, s, w[0], w[1], w[2]);
    var a := Run(Next, s, w);
    RunThree(Next, a, r[0], r[1], r[2]);
    RunThree(Next, Run(Next, a, r), q[0], q[1], q[2]);
  }

  /** Savers i and j have written or synced all they have, the others are idle, and there is a temporary file. */
  ghost predicate BothReady(s: State, i: nat, j: nat) {
    && i < |s.savers| && j < |s.savers| && i != j && s.tmp.Some? && Ready(s.savers[i]) && Ready(s.savers[j])
    && forall l :: 0 <= l < |s.savers| && l != i && l != j ==> s.savers[l].Idle?
  }

  predicate Ready(sv: Saver) { sv.Synced? || (sv.Writing? && sv.off == |sv.data|) }

  lemma OverlapGetsReady(s: State, i: nat, j: nat, data: Str)
    requires Alone(s) && i < |s.savers| && j < |s.savers| && i != j
    requires s.savers[i].Writing? || s.savers[i].Synced?
    ensures BothReady(Next(Next(Next(s, Begin(j, data)), Write(j, |data|)), Write(i, Rest(s.savers[i]))), i, j)
  {
  }

  /** The first has renamed; the second has found nothing to rename and removes what the first has put there. */
  lemma FirstRenames(a: State, i: nat, j: nat)
    requires BothReady(a, i, j)
    ensures var b := Next(Next(Next(a, Sync(i, true)), Sync(j, true)), Rename(i, true));
            && b.final == a.tmp && b.tmp == None && j < |b.savers| && b.savers[j].Synced?
            && forall l :: 0 <= l < |b.savers| && l != j ==> b.savers[l].Idle?
  {
  }

  lemma SecondRemoves(b: State, j: nat, ok: bool)
    requires b.tmp == None && j < |b.savers| && b.savers[j].Synced?
    requires forall l :: 0 <= l < |b.savers| && l != j ==> b.savers[l].Idle?
    ensures var c := Next(Next(Next(b, Rename(j, true)), Remove(j, true)), RenameAgain(j, ok));
            c.final == None && c.tmp == None && AllIdle(c)
  {
  }

  /**
    Whenever a save is under way and a second one begins, the snapshot can be lost although no call has
    failed that could have succeeded: the second rename finds no temporary file, takes that for a file
    system that does not replace files, and removes the snapshot the first one has just put there. When
    both are over there is neither a snapshot nor a temporary file.
  */
  lemma OverlapLosesSnapshot(s: State, i: nat, j: nat, data: Str, ok: bool)
    requires Alone(s) && i < |s.savers| && j < |s.savers| && i != j
    requires s.savers[i].Writing? || s.savers[i].Synced?
    ensures var ts := Overlapping(s, i, j, data, ok);
            NoRenameFails(ts) && After(s, ts).final == None && After(s, ts).tmp == None && AllIdle(After(s, ts))
  {
    OverlappingRuns(s, i, j, data, ok);
    OverlapGetsReady(s, i, j, data);
    var a := Next(Next(Next(s, Begin(j, data)), Write(j, |data|)), Write(i, Rest(s.savers[i])));
    FirstRenames(a, i, j);
    SecondRemoves(Next(Next(Next(a, Sync(i, true)), Sync(j, true)), Rename(i, true)), j, ok);
  }
}
