/** Start-up recovery, from the bytes on disk to the store, and what a crash can cost. */
module Recovery {
  import opened Bytes
  import opened Model
  import opened Framing
  import opened Segments
  import opened WalCodec
  import opened WalReader
  import opened WalWriter
  import opened Commands
  import opened Replay
  import opened History
  import opened Backend
  import opened Engine
  import opened Snapshot
  import opened GroupCommit
  import opened TornLog
  import opened Rotation
  import opened DataValueCodec
  import opened RecordCodec
  import Orchestrator

  /** From a given time on nobody can tell the two stores apart. */
  ghost predicate LooksAlike(s: Commands.Store, s': Commands.Store, from: int) {
    forall t :: t >= from ==> LiveView(s, t) == LiveView(s', t)
  }

  ghost predicate AllApplicable(ms: seq<Mutation>) {
    forall i :: 0 <= i < |ms| ==> Applicable(ms[i])
  }

  /** What recovery starts replaying from: the snapshot if there is one, else the engine as it is. */
  ghost function BaseStore(snapshot: Option<Str>, current: Commands.Store): Option<Commands.Store> {
    match snapshot
    case None => Some(current)
    case Some(b) => if ReadSnapshot(b).Some? then Some(SnapshotStore(ReadSnapshot(b).value)) else None
  }

  /** The events recovery replays; if the primary file is missing the archives are not looked at either. */
  ghost function LoggedEvents(archive: map<nat, Str>, primary: Option<Str>): Option<seq<Mutation>> {
    if primary.None? then Some([]) else ReadChain(ChainFiles(archive, primary))
  }

  /** Applies the events in order, up to the first one that cannot be applied. */
  method ApplyAll(engine: StorageEngine, ms: seq<Mutation>) returns (ok: bool)
    requires engine.Valid()
    modifies engine.backend
    ensures engine.Valid() && (ok <==> AllApplicable(ms))
    ensures ok ==> engine.backend.m == Replay.Replay(old(engine.backend.m), ms)
  {
    for i := 0 to |ms|
      invariant engine.Valid() && engine.backend.m == Replay.Replay(old(engine.backend.m), ms[..i])
      invariant forall j :: 0 <= j < i ==> Applicable(ms[j])
    {
      assert ms[..i + 1] == ms[..i] + [ms[i]];
      ReplayOne(old(engine.backend.m), ms[..i], ms[i]);
      ok := engine.ApplyMutation(ms[i]);
      if !ok { return; }
    }
    assert ms[..|ms|] == ms;
    ok := true;
  }

  /** Recovery gives up on a put without a record and on every type byte but 0, 1 and 2. */
  lemma ApplicableIff(ms: seq<Mutation>)
    ensures AllApplicable(ms) <==>
            forall i :: 0 <= i < |ms| ==> ms[i].kind <= 2 && (ms[i].kind == 0 ==> ms[i].record.Some?)
  {
  }

  /** Snapshot first, then the log chain event by event; an unreadable file or an odd event fails it. */
  method RecoverInto(engine: StorageEngine, snapshot: Option<Str>, archive: map<nat, Str>, primary: Option<Str>)
    returns (ok: bool)
    requires engine.Valid()
    modifies engine.backend
    ensures engine.Valid()
    ensures var base, log := BaseStore(snapshot, old(engine.backend.m)), LoggedEvents(archive, primary);
            && (ok <==> base.Some? && log.Some? && AllApplicable(log.value))
            && (ok ==> engine.backend.m == Replay.Replay(base.value, log.value))
  {
    if snapshot.Some? {
      var records := ReadFromFile(snapshot.value);
      if records.None? { return false; }
      engine.LoadSnapshot(records.value);
    }
    if primary.None? { return true; }
    var muts := ReadAllMutationsWalChain(ChainFiles(archive, primary));
    if muts.None? { return false; }
    ok := ApplyAll(engine, muts.value);
  }

  lemma {:induction false} EmptyLastFile(files: seq<Str>)
    ensures ReadChain(files + [[]]) == ReadChain(files)
  {
    DecoderIsFraming();
    if files == [] {
      var empty: seq<Str> := [[]];
      assert empty[1..] == [] && files + [[]] == empty;
      assert DecodeAll(DecodeOne, []) == Log([], Clean, 0);
      assert ReadSegments(DecodeOne, empty[1..]) == Some([]);
      var none: seq<Mutation> := [];
      assert ReadSegments(DecodeOne, empty) == Onto(none, Some(none)) && none + none == none;
    } else {
      EmptyLastFile(files[1..]);
      assert (files + [[]])[1..] == files[1..] + [[]];
    }
  }

  /**
    A crash between the rename and the open of a rotation leaves all bytes on disk. Recovery sees them
    exactly if the primary file has been created again before it runs, or there was nothing to see. A
    start opens the log first; it is not there only with the log switched off or if that open fails.
  */
  lemma RotationCrashIff(archive: map<nat, Str>, primary: Str, ms: seq<Mutation>, found: Option<Str>)
    requires ReadChain(ChainFiles(archive, Some(primary))) == Some(ms) && (found == None || found == Some([]))
    ensures var archive' := archive[MaxSuffix(archive.Keys) + 1 := primary];
            LoggedEvents(archive', found) == Some(ms) <==> found.Some? || ms == []
  {
    RotateKeepsOrder(archive, primary);
    EmptyLastFile(ChainFiles(archive, Some(primary)));
  }

  lemma StepLogsApplicable(w: World, e: Event)
    ensures AllApplicable(StepOf(w, e).muts)
  {
    if e.Cmd? { LogIsExact(w.store, e.c, e.at, e.limit); }
    if e.Sweep? { LogIsExact(w.store, Pttl(e.key), e.at, 0); }
  }

  lemma StepKeepsApplicable(w: World, e: Event)
    requires AllApplicable(w.log)
    ensures AllApplicable(Step(w, e).log)
  {
    StepLogsApplicable(w, e);
  }

  /** Every event a history logs is one recovery can apply. */
  lemma {:induction false} HistoryLogsApplicable(es: seq<Event>)
    ensures AllApplicable(After(es).log)
  {
    if es != [] {
      HistoryLogsApplicable(es[..|es| - 1]);
      StepKeepsApplicable(After(es[..|es| - 1]), es[|es| - 1]);
    }
  }

  /**
    From bytes to bytes: a history's log, cut into files between events, and any fuzzy snapshot of it
    recover successfully to a store that looks like the engine's own from then on.
  */
  lemma RecoveryFromDisk(es: seq<Event>, records: seq<(Str, Record)>, files: seq<Str>, t: int)
    requires Legal(es) && t >= After(es).now
    requires Snapshot.Fits(records) && Usable(SnapshotStore(records), After(es))
    requires AllWellFormed(After(es).log) && Concat(files) == EncodeBatch(After(es).log)
    requires FilesEndBetweenEvents(files, After(es).log)
    ensures var base, log := BaseStore(Some(EncodeSnapshot(records)), map[]), ReadChain(files);
            && base.Some? && log.Some? && AllApplicable(log.value)
            && LiveView(Replay.Replay(base.value, log.value), t) == LiveView(After(es).store, t)
  {
    SnapshotRoundTrip(records);
    ChainReadIff(files, After(es).log);
    HistoryLogsApplicable(es);
    FuzzySnapshotRecovery(es, SnapshotStore(records), t);
  }

  // ----- A crash that loses the end of the log -----

  ghost function LogAfter(es: seq<Event>): seq<Mutation> { After(es).log }

  ghost function LogLength(es: seq<Event>): nat { |LogAfter(es)| }

  /** No crash behind step j has reached back into what was logged by then. */
  ghost predicate Kept(es: seq<Event>, j: nat) { KeptBy(LogLength, es, j) }

  ghost predicate KeptBy<E>(len: seq<E> -> nat, es: seq<E>, j: nat) {
    j <= |es| && forall i :: j <= i <= |es| ==> len(es[..j]) <= len(es[..i])
  }

  /**
    The first k logged events are those of the first j steps and some, but not all, that came after:
    j is the last moment at which the log was no longer than that.
  */
  ghost predicate CutAt(es: seq<Event>, k: nat, j: nat) { CutBy(LogLength, es, k, j) }

  ghost predicate CutBy<E>(len: seq<E> -> nat, es: seq<E>, k: nat, j: nat) {
    && j <= |es| && len(es[..j]) <= k <= len(es)
    && forall i :: j < i <= |es| ==> k < len(es[..i])
  }

  /** Every step appends to the log or cuts it. */
  ghost predicate AppendsOrCuts<E, M>(log: seq<E> -> seq<M>, es: seq<E>, i: nat)
    requires 0 < i <= |es|
  {
    log(es[..i - 1]) <= log(es[..i]) || log(es[..i]) <= log(es[..i - 1])
  }

  /** So what is there at step j stays, unless it becomes too short for it. */
  lemma {:induction false} FrontStays<E, M>(log: seq<E> -> seq<M>, es: seq<E>, j: nat, i: nat)
    requires j <= i <= |es|
    requires forall l :: j <= l <= i ==> |log(es[..j])| <= |log(es[..l])|
    requires forall l: nat :: j < l <= i ==> AppendsOrCuts(log, es, l)
    ensures log(es[..j]) <= log(es[..i])
    decreases i
  {
    if j < i {
      FrontStays(log, es, j, i - 1);
      assert AppendsOrCuts(log, es, i);
    }
  }

  lemma StepAppendsOrCuts(es: seq<Event>, i: nat)
    requires 0 < i <= |es|
    ensures AppendsOrCuts(LogAfter, es, i)
  {
    assert es[..i][..i - 1] == es[..i - 1] && es[..i][i - 1] == es[i - 1];
  }

  lemma LogGrows(es: seq<Event>, j: nat)
    requires Kept(es, j)
    ensures LogAfter(es[..j]) <= LogAfter(es)
  {
    forall i: nat | j < i <= |es| ensures AppendsOrCuts(LogAfter, es, i) { StepAppendsOrCuts(es, i); }
    forall i | j <= i <= |es| ensures |LogAfter(es[..j])| <= |LogAfter(es[..i])| {
      assert LogLength(es[..j]) <= LogLength(es[..i]);
    }
    FrontStays(LogAfter, es, j, |es|);
    assert es[..|es|] == es;
  }

  lemma StepOnlyAppends(es: seq<Event>, i: nat)
    requires i < |es| && !es[i].Crash?
    ensures LogLength(es[..i]) <= LogLength(es[..i + 1])
  {
    assert es[..i + 1][..i] == es[..i] && es[..i + 1][i] == es[i];
  }

  lemma {:induction false} NeverShrinks<E>(len: seq<E> -> nat, es: seq<E>, j: nat, i: nat)
    requires j <= i <= |es| && forall l :: j <= l < i ==> len(es[..l]) <= len(es[..l + 1])
    ensures len(es[..j]) <= len(es[..i])
    decreases i
  {
    if j < i {
      NeverShrinks(len, es, j, i - 1);
      assert es[..i - 1 + 1] == es[..i];
    }
  }

  /** What is logged by step j stays if no crash follows. */
  lemma NoCrashKeeps(es: seq<Event>, j: nat)
    requires j <= |es| && forall i :: j <= i < |es| ==> !es[i].Crash?
    ensures Kept(es, j)
  {
    forall l | j <= l < |es| ensures LogLength(es[..l]) <= LogLength(es[..l + 1]) { StepOnlyAppends(es, l); }
    forall i | j <= i <= |es| ensures LogLength(es[..j]) <= LogLength(es[..i]) { NeverShrinks(LogLength, es, j, i); }
  }

  lemma {:induction false} LastAtMost<E>(len: seq<E> -> nat, es: seq<E>, k: nat, i: nat) returns (j: nat)
    requires i <= |es| && len([]) <= k
    ensures j <= i && len(es[..j]) <= k && forall l :: j < l <= i ==> k < len(es[..l])
    decreases i
  {
    assert es[..0] == [];
    if len(es[..i]) <= k {
      j := i;
    } else {
      j := LastAtMost(len, es, k, i - 1);
    }
  }

  lemma FindCutBy<E>(len: seq<E> -> nat, es: seq<E>, k: nat) returns (j: nat)
    requires len([]) <= k <= len(es)
    ensures CutBy(len, es, k, j) && KeptBy(len, es, j)
  {
    j := LastAtMost(len, es, k, |es|);
  }

  lemma EmptyLog()
    ensures LogLength([]) == 0
  {
  }

  lemma FindCut(es: seq<Event>, k: nat) returns (j: nat)
    requires k <= LogLength(es)
    ensures CutAt(es, k, j) && Kept(es, j)
  {
    EmptyLog();
    j := FindCutBy(LogLength, es, k);
  }

  lemma {:induction false} LegalPrefix(es: seq<Event>, j: nat)
    requires Legal(es) && j <= |es|
    ensures Legal(es[..j]) && (FullyLogged(es) ==> FullyLogged(es[..j]))
    decreases |es|
  {
    if j < |es| {
      LegalPrefix(es[..|es| - 1], j);
      assert es[..|es| - 1][..j] == es[..j];
    } else {
      assert es[..j] == es;
    }
  }

  lemma JoinedReplay(base: Commands.Store, log: seq<Mutation>, done: seq<Mutation>, k: nat)
    requires done <= log && |done| <= k <= |log|
    ensures Replay.Replay(base, log[..k]) == Replay.Replay(Replay.Replay(base, done), log[|done|..k])
  {
    assert log[..k] == done + log[|done|..k];
    ReplayAppend(base, done, log[|done|..k]);
  }

  lemma TailViewsAgree(s: Commands.Store, r: Commands.Store, rest: seq<Mutation>, now: int, t: int)
    requires t >= now && forall key :: Agree(s, r, now, key)
    ensures LiveView(Replay.Replay(r, rest), t) == LiveView(Replay.Replay(s, rest), t)
  {
    var s', r' := Replay.Replay(s, rest), Replay.Replay(r, rest);
    forall key ensures Agree(s', r', now, key) { ReplayAgrees(s, r, rest, now, key); }
    AgreeingViews(s', r', now, t);
  }

  /** Replaying more events over a usable snapshot and a good world's log or on its store looks the same. */
  lemma TailViews(w: World, snapshot: Commands.Store, log: seq<Mutation>, k: nat, t: int)
    requires Good(w) && Usable(snapshot, w) && t >= w.now && w.log <= log && |w.log| <= k <= |log|
    ensures LiveView(Replay.Replay(snapshot, log[..k]), t) == LiveView(Replay.Replay(w.store, log[|w.log|..k]), t)
  {
    JoinedReplay(snapshot, log, w.log, k);
    var rest, s := log[|w.log|..k], Replay.Replay(snapshot, w.log);
    forall key ensures Agree(s, Replayed(w), w.now, key) { RestartAgrees(w, snapshot, key); }
    forall key ensures Agree(w.store, Replayed(w), w.now, key) { assert AgreesAt(w, key); }
    TailViewsAgree(s, Replayed(w), rest, w.now, t);
    TailViewsAgree(w.store, Replayed(w), rest, w.now, t);
  }

  lemma SplitReplay(log: seq<Mutation>, w: World, snapshot: Commands.Store, k: nat)
    requires w.log <= log && |w.log| <= k <= |log| && Replay.Replay(snapshot, w.log) == w.store
    ensures Replay.Replay(snapshot, log[..k]) == Replay.Replay(w.store, log[|w.log|..k])
  {
    JoinedReplay(snapshot, log, w.log, k);
  }

  /** The store after the first j steps and those of the next one's events that are among the first k. */
  ghost function TornStore(es: seq<Event>, k: nat, j: nat): Commands.Store
    requires j <= |es| && LogLength(es[..j]) <= k <= LogLength(es)
  {
    Replay.Replay(After(es[..j]).store, After(es).log[LogLength(es[..j])..k])
  }

  lemma CutLooksTorn(es: seq<Event>, snapshot: Commands.Store, k: nat, j: nat, t: int)
    requires Legal(es) && CutAt(es, k, j) && Kept(es, j) && t >= After(es[..j]).now && Usable(snapshot, After(es[..j]))
    ensures LiveView(Replay.Replay(snapshot, After(es).log[..k]), t) == LiveView(TornStore(es, k, j), t)
  {
    LegalPrefix(es, j);
    HistoryIsGood(es[..j]);
    LogGrows(es, j);
    TailViews(After(es[..j]), snapshot, After(es).log, k, t);
  }

  lemma CutIsTorn(es: seq<Event>, snapshot: Commands.Store, k: nat, j: nat)
    requires Legal(es) && FullyLogged(es) && CutAt(es, k, j) && Kept(es, j)
    requires ReadFrom(snapshot, After(es[..j])) && Covers(snapshot, After(es[..j]))
    ensures Replay.Replay(snapshot, After(es).log[..k]) == TornStore(es, k, j)
  {
    LegalPrefix(es, j);
    HistoryIsGood(es[..j]);
    LogRebuildsStore(es[..j]);
    RestartIsReplayIff(After(es[..j]), snapshot);
    LogGrows(es, j);
    SplitReplay(After(es).log, After(es[..j]), snapshot, k);
  }

  /** What the first k events of the log give over a snapshot, as the history has it. */
  ghost predicate ReplaysTorn(es: seq<Event>, k: nat, j: nat, snapshot: Commands.Store, store: Commands.Store) {
    && CutAt(es, k, j)
    && (Usable(snapshot, After(es[..j])) ==> LooksAlike(store, TornStore(es, k, j), After(es[..j]).now))
    && (FullyLogged(es) && ReadFrom(snapshot, After(es[..j])) && Covers(snapshot, After(es[..j])) ==>
          store == TornStore(es, k, j))
  }

  lemma FrontReplaysTorn(es: seq<Event>, snapshot: Commands.Store, k: nat) returns (j: nat)
    requires Legal(es) && k <= LogLength(es)
    ensures AllApplicable(LogAfter(es)[..k])
    ensures ReplaysTorn(es, k, j, snapshot, Replay.Replay(snapshot, LogAfter(es)[..k]))
  {
    HistoryLogsApplicable(es);
    j := FindCut(es, k);
    var w := After(es[..j]);
    if Usable(snapshot, w) {
      forall t | t >= w.now
        ensures LiveView(Replay.Replay(snapshot, After(es).log[..k]), t) == LiveView(TornStore(es, k, j), t)
      {
        CutLooksTorn(es, snapshot, k, j, t);
      }
    }
    if FullyLogged(es) && ReadFrom(snapshot, w) && Covers(snapshot, w) { CutIsTorn(es, snapshot, k, j); }
  }

  /** Without snapshots, an empty store is all recovery needs to start from, at every moment. */
  lemma NoSnapshotNeeded(es: seq<Event>, j: nat)
    requires LogOnly(es) && j <= |es|
    ensures Usable(map[], After(es[..j])) && Covers(map[], After(es[..j]))
  {
    LogOnlyBase(es[..j]);
  }

  /**
    What a crash can leave of log ms in the files: its first n bytes, and only the last file with
    anything in it ends inside an event.
  */
  ghost predicate LeftByCrash(archive: map<nat, Str>, primary: Option<Str>, ms: seq<Mutation>, n: nat) {
    primary.Some? && LateCut(EncodeMutation, ChainFiles(archive, primary), ms, n)
  }

  lemma NoArchives(primary: Str)
    ensures Numbered(map[]) == [] && ChainFiles(map[], Some(primary)) == [primary] && Concat([primary]) == primary
  {
    var none: map<nat, Str> := map[];
    assert MaxSuffix(none.Keys) == 0 && Below(none, 1) == Below(none, 0) + [] == [];
    ConcatSnoc([], primary);
    Unit(primary);
    assert [] + [primary] == [primary];
  }

  /** A single file cut anywhere is of that kind. */
  lemma SingleFileIsLeft(ms: seq<Mutation>, n: nat)
    requires n <= |EncodeBatch(ms)|
    ensures LeftByCrash(map[], Some(EncodeBatch(ms)[..n]), ms, n)
  {
    NoArchives(EncodeBatch(ms)[..n]);
    OneIsLate(EncodeMutation, ms, n);
  }

  /** An empty primary file, just opened by a rotation, changes nothing. */
  lemma DropEmptyLast(files: seq<Str>, limit: nat)
    requires limit > 0 && Packed(files, limit) && !Filled(files, limit)
    ensures var rest := files[..|files| - 1];
            files == rest + [[]] && Filled(rest, limit) && Concat(rest) == Concat(files)
  {
    var rest := files[..|files| - 1];
    assert files == rest + [[]];
    ConcatSnoc(rest, []);
    Unit(Concat(rest));
  }

  /** So are files all written under one limit, if every multiple of it before the cut is between two events. */
  lemma PackedIsLeft(archive: map<nat, Str>, primary: Option<Str>, ms: seq<Mutation>, limit: nat, n: nat)
    requires primary.Some? && limit > 0 && Packed(ChainFiles(archive, primary), limit)
    requires n <= |EncodeBatch(ms)| && Concat(ChainFiles(archive, primary)) == EncodeBatch(ms)[..n]
    requires AlignedUpTo(EncodeMutation, ms, limit, n)
    ensures LeftByCrash(archive, primary, ms, n)
  {
    var files := ChainFiles(archive, primary);
    BlocksAreLate(EncodeMutation, ms, limit, n);
    if Filled(files, limit) {
      FilledAreBlocks(files, limit);
    } else {
      DropEmptyLast(files, limit);
      FilledAreBlocks(files[..|files| - 1], limit);
      LateAndEmpty(EncodeMutation, files[..|files| - 1], ms, n);
    }
  }

  lemma CutChainReads(archive: map<nat, Str>, primary: Option<Str>, ms: seq<Mutation>, n: nat)
    requires AllWellFormed(ms) && LeftByCrash(archive, primary, ms, n)
    ensures LoggedEvents(archive, primary) == Some(ms[..WholeEvents(ms, n)])
  {
    Readable(ms);
    LateCutReads(DecodeOne, EncodeMutation, ChainFiles(archive, primary), ms, n);
  }

  /** Of the first n bytes of log ms recovery gets the first k events, which are all that are whole in them. */
  ghost predicate ReadsWhole(archive: map<nat, Str>, primary: Option<Str>, ms: seq<Mutation>, n: nat, k: nat) {
    WholeIn(ms, n, k) && LoggedEvents(archive, primary) == Some(ms[..k])
  }

  /** The chain reader gets the whole events out of what a crash has left, and finds no damage. */
  lemma CrashedChainReads(archive: map<nat, Str>, primary: Option<Str>, ms: seq<Mutation>, n: nat) returns (k: nat)
    requires AllWellFormed(ms) && LeftByCrash(archive, primary, ms, n)
    ensures ReadsWhole(archive, primary, ms, n, k)
  {
    k := WholeEvents(ms, n);
    WholeEventsIn(ms, n);
    CutChainReads(archive, primary, ms, n);
  }

  /**
    Recovery after a crash that cut the log at any byte, over every history with its dumps, restarts and
    earlier crashes between events, rotated or not, from any snapshot that is not ahead of the cut:
    recovery succeeds, and at every later time the store looks like that after the first j steps plus a
    proper prefix of the next one's events. So a suffix of the steps is lost and at most one is torn. If
    nothing is dropped unlogged, the store is exactly that.
  */
  lemma CrashLosesASuffix(es: seq<Event>, snapshot: Commands.Store, archive: map<nat, Str>, primary: Option<Str>,
                          n: nat)
    returns (k: nat, j: nat)
    requires Legal(es) && AllWellFormed(LogAfter(es)) && LeftByCrash(archive, primary, LogAfter(es), n)
    ensures ReadsWhole(archive, primary, LogAfter(es), n, k) && AllApplicable(LogAfter(es)[..k])
    ensures ReplaysTorn(es, k, j, snapshot, Replay.Replay(snapshot, LogAfter(es)[..k]))
  {
    k := CrashedChainReads(archive, primary, LogAfter(es), n);
    j := FrontReplaysTorn(es, snapshot, k);
  }

  // ----- A cut log behind a snapshot -----

  /** Key by key: what the cut log touches is as the log alone has it, everything else is as in the snapshot. */
  lemma CutBehindSnapshotAt(snapshot: Commands.Store, log: seq<Mutation>, key: Str)
    ensures SameAt(Replay.Replay(snapshot, log), if Touched(log, key) then Replay.Replay(map[], log) else snapshot, key)
  {
    if Touched(log, key) {
      ReplayAt(snapshot, map[], log, key);
    } else {
      ReplayAt(snapshot, snapshot, log, key);
    }
  }

  /** So the result is what the cut log alone gives exactly when it touches every key of the snapshot. */
  lemma CutBehindSnapshotIff(snapshot: Commands.Store, log: seq<Mutation>)
    ensures Replay.Replay(snapshot, log) == Replay.Replay(map[], log)
            <==> forall key :: key in snapshot ==> Touched(log, key)
  {
    if forall key :: key in snapshot ==> Touched(log, key) {
      BaseIsIrrelevant(snapshot, log);
    } else {
      var key :| key in snapshot && !Touched(log, key);
      ReplayAt(snapshot, snapshot, log, key);
      ReplayAt(map[], map[], log, key);
    }
  }

  /**
    A server that came up on a snapshot and a cut log and has logged more: a later snapshot and the whole
    log give its store exactly if the two snapshots agree on every key the log does not touch.
  */
  lemma LaterSnapshotIff(snapshot: Commands.Store, later: Commands.Store, cut: seq<Mutation>, more: seq<Mutation>)
    ensures Replay.Replay(later, cut + more) == Replay.Replay(Replay.Replay(snapshot, cut), more)
            <==> forall key :: Touched(cut + more, key) || SameAt(later, snapshot, key)
  {
    ReplayAppend(snapshot, cut, more);
    BasesIff(later, snapshot, cut + more);
  }

  lemma UntouchedBefore(w: World, log: seq<Mutation>, k: nat, key: Str)
    requires w.log <= log && |w.log| <= k <= |log| && !Touched(log[..k], key)
    ensures !Touched(w.log, key)
  {
    assert log[..k] == w.log + log[|w.log|..k];
    TouchedMonotone(w.log, log[|w.log|..k], key);
  }

  /** A snapshot whose records were all read before the cut, and before every earlier one, does no harm. */
  lemma SnapshotNotAheadOfLog(es: seq<Event>, j: nat, snapshot: Commands.Store, k: nat)
    requires Legal(es) && Kept(es, j) && LogLength(es[..j]) <= k <= LogLength(es)
    requires ReadFrom(snapshot, After(es[..j])) && Covers(snapshot, After(es[..j]))
    ensures Replay.Replay(snapshot, After(es).log[..k]) == Replay.Replay(After(es[..j]).base, After(es).log[..k])
  {
    LegalPrefix(es, j);
    HistoryIsGood(es[..j]);
    LogGrows(es, j);
    var w, log := After(es[..j]), After(es).log;
    forall key | !Touched(log[..k], key) ensures SameAt(snapshot, w.base, key) {
      UntouchedBefore(w, log, k, key);
      if key in snapshot { assert (key, snapshot[key]) in w.seen; }
    }
    BasesIff(snapshot, w.base, log[..k]);
  }

  lemma ReplayThree(s: Commands.Store, x: Mutation, y: Mutation, z: Mutation)
    ensures Replay.Replay(s, [x]) == Apply(s, x)
    ensures Replay.Replay(s, [x, y]) == Apply(Apply(s, x), y)
    ensures Replay.Replay(s, [x, y, z]) == Apply(Apply(Apply(s, x), y), z)
  {
    ReplayOne(s, [], x);
    ReplayOne(s, [x], y);
    ReplayOne(s, [x, y], z);
    assert [] + [x] == [x] && [x] + [y] == [x, y] && [x, y] + [z] == [x, y, z];
  }

  /** A snapshot ahead of the cut can mix two moments into a store that never was. */
  lemma SnapshotAheadOfLog(now: i64, i: nat)
    requires i <= 3
    ensures var a: Str, b: Str := [97], [98]; var one, two := Fresh(StringV([1])), Fresh(StringV([2]));
            var log := [PutM(a, one, now), PutM(a, two, now), PutM(b, one, now)];
            var snapshot := Replay.Replay(map[], log);
            Replay.Replay(snapshot, log[..1]) != Replay.Replay(map[], log[..i])
  {
    var a: Str, b: Str := [97], [98];
    var one, two := Fresh(StringV([1])), Fresh(StringV([2]));
    var x, y, z := PutM(a, one, now), PutM(a, two, now), PutM(b, one, now);
    var log := [x, y, z];
    assert log[..0] == [] && log[..1] == [x] && log[..2] == [x, y] && log[..3] == log;
    ReplayThree(map[], x, y, z);
    var snapshot := Replay.Replay(map[], log);
    ReplayThree(snapshot, x, y, z);
    var mixed := Replay.Replay(snapshot, log[..1]);
    assert a != b && one.value.str != two.value.str;
    assert b in mixed && mixed[a] == one;
    if i == 3 { assert Replay.Replay(map[], log[..i])[a] == two; } else { assert b !in Replay.Replay(map[], log[..i]); }
  }

  // ----- From command to restart -----

  /**
    One life of the server: its log holds what the first i steps have logged, the rest is handed over
    batch by batch, and the orchestrator is closed under any interleaving in which drainers write in
    turn. The log reads back clean, and with any fuzzy snapshot, the final one included, the store looks
    like the engine's own from then on.
  */
  lemma CleanShutdownRecovers(es: seq<Event>, i: nat, ts: seq<Orchestrator.Step>, flushers: nat, maxQueue: nat,
                              snapshot: Commands.Store, t: int)
    requires Legal(es) && AllWellFormed(After(es).log) && Usable(snapshot, After(es)) && t >= After(es).now
    requires Orchestrator.Fifo(ts, flushers, maxQueue) && i <= |es|
    requires var s := Orchestrator.After(ts, flushers, maxQueue);
             && s.closing.Closed? && Orchestrator.FlushersIdle(s)
             && LogAfter(es[..i]) + Flatten(s.accepted) == LogAfter(es)
    ensures var log := ReadLog(EncodeBatch(LogAfter(es[..i]) + Orchestrator.After(ts, flushers, maxQueue).wal));
            && log.verdict == Clean && AllApplicable(log.ms)
            && LiveView(Replay.Replay(snapshot, log.ms), t) == LiveView(After(es).store, t)
  {
    Orchestrator.ClosedLogInOrder(ts, flushers, maxQueue);
    BatchRoundTrip(After(es).log);
    HistoryLogsApplicable(es);
    FuzzySnapshotRecovery(es, snapshot, t);
  }

  /** What the writer has on disk: data put behind the files there were, byte by byte. */
  ghost predicate OnDisk(writer: Writer, before: seq<Str>, data: Str)
    reads writer
  {
    && writer.isOpen && writer.Valid() && writer.All() == Concat(before) + data
    && before != [] && writer.Files() == Put(before, data, writer.limit)
  }

  /** The buffers one after the other. The code does not look at failed appends; ok says there was none so far. */
  method AppendAll(writer: Writer, writes: seq<Str>, soFar: bool, ghost before: seq<Str>, ghost data: Str)
    returns (ok: bool)
    requires writer.Valid() && (soFar ==> OnDisk(writer, before, data))
    modifies writer
    ensures writer.Valid() && (ok ==> OnDisk(writer, before, data + Concat(writes)))
  {
    ok := soFar;
    Unit(data);
    for i := 0 to |writes|
      invariant writer.Valid() && (ok ==> OnDisk(writer, before, data + Concat(writes[..i])))
    {
      assert writes[..i + 1] == writes[..i] + [writes[i]];
      ConcatSnoc(writes[..i], writes[i]);
      Assoc(data, Concat(writes[..i]), writes[i]);
      var done := AppendOne(writer, writes[i], ok, before, data + Concat(writes[..i]));
      ok := ok && done;
    }
    assert writes[..|writes|] == writes;
  }

  method AppendOne(writer: Writer, buffer: Str, soFar: bool, ghost before: seq<Str>, ghost data: Str)
    returns (done: bool)
    requires writer.Valid() && (soFar ==> OnDisk(writer, before, data))
    modifies writer
    ensures writer.Valid() && (soFar && done ==> OnDisk(writer, before, data + buffer))
  {
    ghost var k;
    done, k := writer.AppendBytes(buffer);
    assert buffer[..|buffer|] == buffer;
    if soFar {
      PutAppend(before, data, buffer, writer.limit);
      Assoc(Concat(before), data, buffer);
    }
  }

  /** Drain after drain: group commit and the appends of its buffers. */
  method Persist(writer: Writer, drains: seq<seq<seq<Mutation>>>, maxMutations: nat, maxBytes: nat)
    returns (ok: bool)
    requires writer.isOpen && writer.Valid()
    modifies writer
    ensures writer.Valid() && (ok ==> OnDisk(writer, old(writer.Files()), EncodeBatch(Flatten(Flatten(drains)))))
  {
    ok := true;
    ghost var before := writer.Files();
    Unit(Concat(before));
    for i := 0 to |drains|
      invariant writer.Valid()
      invariant ok ==> OnDisk(writer, before, EncodeBatch(Flatten(Flatten(drains[..i]))))
    {
      OneMoreDrain(drains, i);
      var writes;
      ghost var groups;
      writes, groups := Drain(drains[i], maxMutations, maxBytes);
      ok := AppendAll(writer, writes, ok, before, EncodeBatch(Flatten(Flatten(drains[..i]))));
    }
    assert drains[..|drains|] == drains;
  }

  lemma OneMoreDrain(drains: seq<seq<seq<Mutation>>>, i: nat)
    requires i < |drains|
    ensures EncodeBatch(Flatten(Flatten(drains[..i]))) + EncodeBatch(Flatten(drains[i]))
            == EncodeBatch(Flatten(Flatten(drains[..i + 1])))
  {
    assert drains[..i + 1] == drains[..i] + [drains[i]];
    FlattenSnoc(drains[..i], drains[i]);
    FlattenAppend(Flatten(drains[..i]), drains[i]);
    EncodeAppend(EncodeMutation, Flatten(Flatten(drains[..i])), Flatten(drains[i]));
  }

  /** Files that hold log ms and can be appended to: under whatever limits, each ends between two events. */
  ghost predicate Holds(archive: map<nat, Str>, primary: Option<Str>, ms: seq<Mutation>) {
    primary.Some? && FilesEndBetweenEvents(ChainFiles(archive, primary), ms)
  }

  /** From event i on, rotation under the limit begins new files only between two events. */
  ghost predicate RotatesBetweenEvents(ms: seq<Mutation>, i: nat, last: Option<Str>, limit: nat, n: nat)
    requires i <= |ms| && last.Some?
  {
    RotatesBetween(EncodeMutation, ms, i, last.value, limit, n)
  }

  /** A log that was there, and what has been appended to it, are read back exactly if rotation cuts no event. */
  lemma GrownLogReadsBackIff(archive0: map<nat, Str>, primary0: Option<Str>, archive: map<nat, Str>,
                             primary: Option<Str>, ms: seq<Mutation>, i: nat, limit: nat)
    requires AllWellFormed(ms) && i <= |ms| && Holds(archive0, primary0, ms[..i]) && primary.Some?
    requires ChainFiles(archive, primary) == Put(ChainFiles(archive0, primary0), EncodeBatch(ms[i..]), limit)
    requires Concat(ChainFiles(archive, primary)) == EncodeBatch(ms)
    ensures LoggedEvents(archive, primary) == Some(ms)
            <==> RotatesBetweenEvents(ms, i, primary0, limit, |EncodeBatch(ms)|)
  {
    PutOnBoundariesIff(EncodeMutation, Numbered(archive0), primary0.value, ms, i, limit);
    ChainReadIff(ChainFiles(archive, primary), ms);
  }

  lemma PackedHolds(archive: map<nat, Str>, primary: Option<Str>, ms: seq<Mutation>, limit: nat)
    requires primary.Some? && limit > 0 && Packed(ChainFiles(archive, primary), limit)
    requires Concat(ChainFiles(archive, primary)) == EncodeBatch(ms) && CutsAligned(EncodeMutation, ms, limit)
    ensures Holds(archive, primary, ms)
  {
    var files := ChainFiles(archive, primary);
    BlocksOnBoundariesIff(EncodeMutation, ms, limit);
    if Filled(files, limit) {
      FilledAreBlocks(files, limit);
    } else {
      var rest := files[..|files| - 1];
      DropEmptyLast(files, limit);
      FilledAreBlocks(rest, limit);
      WholeOnBoundaries(EncodeMutation, []);
      BoundariesJoin(EncodeMutation, rest, [[]], ms, []);
      assert ms + [] == ms;
    }
  }

  /** Files all written under this one limit: nothing is cut if every multiple of it is between two events. */
  lemma SameLimit(archive: map<nat, Str>, primary: Option<Str>, ms: seq<Mutation>, i: nat, limit: nat, n: nat)
    requires primary.Some? && limit > 0 && Packed(ChainFiles(archive, primary), limit) && i <= |ms|
    requires Concat(ChainFiles(archive, primary)) == EncodeBatch(ms[..i]) && |EncodeBatch(ms[..i])| <= n
    requires AlignedUpTo(EncodeMutation, ms, limit, n)
    ensures Holds(archive, primary, ms[..i]) && RotatesBetweenEvents(ms, i, primary, limit, n)
  {
    AlignedFront(EncodeMutation, ms, i, limit, n);
    PackedHolds(archive, primary, ms[..i], limit);
    SameLimitRotates(ChainFiles(archive, primary), primary, ms, i, limit, n);
  }

  lemma SameLimitRotates(files: seq<Str>, primary: Option<Str>, ms: seq<Mutation>, i: nat, limit: nat, n: nat)
    requires limit > 0 && Packed(files, limit) && i <= |ms| && primary == Some(files[|files| - 1])
    requires |Concat(files)| == |EncodeBatch(ms[..i])| && AlignedUpTo(EncodeMutation, ms, limit, n)
    ensures RotatesBetweenEvents(ms, i, primary, limit, n)
  {
    var end := |Concat(files)| + Room(files[|files| - 1], limit);
    PackedSize(files, limit);
    RotatesAtMultiples(EncodeMutation, ms, i, primary.value, limit, n, end);
  }

  /** A server that starts without any log. */
  lemma EmptyLogHolds()
    ensures Holds(map[], Some([]), [])
  {
    NoArchives([]);
    WholeOnBoundaries(EncodeMutation, []);
  }

  /** The primary file after an open that creates it if it is missing. */
  function Reopened(primary: Option<Str>): Option<Str> { if primary.None? then Some([]) else primary }

  /**
    A start of the server: the log is opened, and created if it is missing, before recovery runs. So a
    crash between the rename and the open of a rotation does not hide the archives from it.
  */
  method Start(limit: nat, archive: map<nat, Str>, primary: Option<Str>, snapshot: Option<Str>, engine: StorageEngine)
    returns (writer: Writer, ok: bool)
    requires engine.Valid()
    modifies engine.backend
    ensures fresh(writer) && writer.Valid() && writer.isOpen && writer.limit == limit && engine.Valid()
    ensures writer.archive == archive && writer.primary == Reopened(primary)
    ensures var base, log := BaseStore(snapshot, old(engine.backend.m)), LoggedEvents(archive, writer.primary);
            && (ok <==> base.Some? && log.Some? && AllApplicable(log.value))
            && (ok ==> engine.backend.m == Replay.Replay(base.value, log.value))
  {
    writer := new Writer(limit, archive, primary, true);
    ok := RecoverInto(engine, snapshot, writer.archive, writer.primary);
  }

  /**
    The whole chain, for any life of the server: the writer is opened on what the first i steps have
    logged, in files of any sizes; the rest of the history's log is accepted by the orchestrator, drained
    in turn, grouped, appended under the size limit, then read back through the chain behind the final
    snapshot. If every append succeeded and rotation cut no event, recovery succeeds and the store looks
    like the engine's own.
  */
  method ShutdownAndRestart(writer: Writer, drains: seq<seq<seq<Mutation>>>, maxMutations: nat, maxBytes: nat,
                            records: seq<(Str, Record)>, newLimit: nat, engine: StorageEngine,
                            ghost es: seq<Event>, ghost i: nat,
                            ghost ts: seq<Orchestrator.Step>, ghost flushers: nat, ghost maxQueue: nat)
    returns (written: bool, next: Writer, recovered: bool)
    requires Legal(es) && AllWellFormed(LogAfter(es)) && i <= |es|
    requires writer.Valid() && writer.isOpen && Holds(writer.archive, writer.primary, LogAfter(es[..i]))
    requires Snapshot.Fits(records) && Usable(SnapshotStore(records), After(es))
    requires Orchestrator.Fifo(ts, flushers, maxQueue)
    requires var s := Orchestrator.After(ts, flushers, maxQueue);
             && s.closing.Closed? && Orchestrator.FlushersIdle(s)
             && LogAfter(es[..i]) + Flatten(s.accepted) == LogAfter(es) && Flatten(Flatten(drains)) == s.wal
    requires engine.Valid()
    modifies writer, engine.backend
    ensures engine.Valid()
    ensures written && Rotated(es, i, old(writer.primary), writer.limit) ==>
              recovered && LooksAlike(engine.backend.m, After(es).store, After(es).now)
  {
    ghost var archive, primary := writer.archive, writer.primary;
    Orchestrator.ClosedLogInOrder(ts, flushers, maxQueue);
    written := Persist(writer, drains, maxMutations, maxBytes);
    var bytes := WriteSnapshot(records);
    RecoversFrom(es, records);
    if written && Rotated(es, i, primary, writer.limit) {
      LifeReadsBack(es, i, archive, primary, writer.archive, writer.primary, writer.limit,
                    Flatten(Flatten(drains)));
    }
    next, recovered := Start(newLimit, writer.archive, writer.primary, Some(bytes), engine);
  }

  /** The events logged behind step i begin new files only between two of them. */
  ghost predicate Rotated(es: seq<Event>, i: nat, primary: Option<Str>, limit: nat) {
    && i <= |es| && primary.Some? && LogLength(es[..i]) <= LogLength(es)
    && RotatesBetweenEvents(LogAfter(es), LogLength(es[..i]), primary, limit, |EncodeBatch(LogAfter(es))|)
  }

  lemma LifeReadsBack(es: seq<Event>, i: nat, archive0: map<nat, Str>, primary0: Option<Str>, archive: map<nat, Str>,
                      primary: Option<Str>, limit: nat, more: seq<Mutation>)
    requires AllWellFormed(LogAfter(es)) && Rotated(es, i, primary0, limit) && primary.Some?
    requires Holds(archive0, primary0, LogAfter(es[..i])) && LogAfter(es[..i]) + more == LogAfter(es)
    requires ChainFiles(archive, primary) == Put(ChainFiles(archive0, primary0), EncodeBatch(more), limit)
    requires Concat(ChainFiles(archive, primary)) == Concat(ChainFiles(archive0, primary0)) + EncodeBatch(more)
    ensures LoggedEvents(archive, primary) == Some(LogAfter(es))
  {
    var ms, k := LogAfter(es), LogLength(es[..i]);
    assert ms[..k] == LogAfter(es[..i]) && ms[k..] == more;
    BoundariesConcat(EncodeMutation, ChainFiles(archive0, primary0), ms[..k]);
    EncodeAppend(EncodeMutation, ms[..k], more);
    GrownLogReadsBackIff(archive0, primary0, archive, primary, ms, k, limit);
  }

  lemma RecoversFrom(es: seq<Event>, records: seq<(Str, Record)>)
    requires Legal(es) && Snapshot.Fits(records) && Usable(SnapshotStore(records), After(es))
    ensures ReadSnapshot(EncodeSnapshot(records)) == Some(records) && AllApplicable(After(es).log)
    ensures LooksAlike(Replay.Replay(SnapshotStore(records), After(es).log), After(es).store, After(es).now)
  {
    SnapshotRoundTrip(records);
    HistoryLogsApplicable(es);
    forall t | t >= After(es).now
      ensures LiveView(Replay.Replay(SnapshotStore(records), After(es).log), t) == LiveView(After(es).store, t)
    {
      FuzzySnapshotRecovery(es, SnapshotStore(records), t);
    }
  }

  // ----- A crash while the log is written -----

  /**
    A crash during the append of a buffer with some of the next events, after any number of its bytes and
    at any point of a rotation, and the start that follows, with any readable snapshot: if rotation cut
    no event, recovery succeeds with the whole events that got in, and the store looks like that after a
    front of the history unless the snapshot is ahead of it.
  */
  method CrashAndRestart(writer: Writer, data: Str, newLimit: nat, snapshot: Option<Str>, engine: StorageEngine,
                         ghost es: seq<Event>, ghost i: nat)
    returns (next: Writer, recovered: bool, ghost n: nat, ghost k: nat, ghost j: nat)
    requires Legal(es) && AllWellFormed(LogAfter(es)) && i <= LogLength(es)
    requires writer.Valid() && writer.isOpen && Holds(writer.archive, writer.primary, LogAfter(es)[..i])
    requires EncodeBatch(LogAfter(es)[..i]) + data <= EncodeBatch(LogAfter(es))
    requires engine.Valid() && engine.backend.m == map[] && BaseStore(snapshot, map[]).Some?
    modifies writer, engine.backend
    ensures engine.Valid() && next.Valid() && next.isOpen && n == |writer.All()|
    ensures RotatesBetweenEvents(LogAfter(es), i, old(writer.primary), writer.limit, n) ==>
              && recovered && ReadsWhole(next.archive, next.primary, LogAfter(es), n, k)
              && ReplaysTorn(es, k, j, BaseStore(snapshot, map[]).value, engine.backend.m)
  {
    ghost var log, archive, primary := LogAfter(es), writer.archive, writer.primary;
    var ok;
    ghost var got;
    ok, got := writer.AppendBytes(data);
    n, k, j := |writer.All()|, 0, 0;
    if RotatesBetweenEvents(log, i, primary, writer.limit, n) {
      FrontOfBuffer(EncodeBatch(log[..i]), data, EncodeBatch(log), got);
      CrashedAppend(archive, primary, log, i, data[..got], writer.archive, writer.primary, writer.limit);
      k, j := CrashLosesASuffix(es, BaseStore(snapshot, map[]).value, writer.archive, Reopened(writer.primary), n);
    }
    next, recovered := Start(newLimit, writer.archive, writer.primary, snapshot, engine);
  }

  lemma FrontOfBuffer(front: Str, data: Str, all: Str, got: nat)
    requires front + data <= all && got <= |data|
    ensures front + data[..got] <= all
  {
    assert all[..|front + data|] == front + data;
    assert (front + data[..got]) == all[..|front| + got];
  }

  /** What a crash leaves after data behind the first i events, once the log has been opened again. */
  lemma CrashedAppend(archive0: map<nat, Str>, primary0: Option<Str>, ms: seq<Mutation>, i: nat, data: Str,
                      archive: map<nat, Str>, primary: Option<Str>, limit: nat)
    requires i <= |ms| && Holds(archive0, primary0, ms[..i]) && EncodeBatch(ms[..i]) + data <= EncodeBatch(ms)
    requires var spec, files := Put(ChainFiles(archive0, primary0), data, limit), ChainFiles(archive, primary);
             && Laid(files, spec, limit) && (primary.None? ==> files == spec)
             && Concat(files) == Concat(ChainFiles(archive0, primary0)) + data
    requires RotatesBetweenEvents(ms, i, primary0, limit, |Concat(ChainFiles(archive, primary))|)
    ensures LeftByCrash(archive, Reopened(primary), ms, |Concat(ChainFiles(archive, primary))|)
  {
    var spec, files := Put(ChainFiles(archive0, primary0), data, limit), ChainFiles(archive, primary);
    BoundariesConcat(EncodeMutation, ChainFiles(archive0, primary0), ms[..i]);
    PutIsLate(EncodeMutation, Numbered(archive0), primary0.value, ms, i, data, limit);
    ReopenedIsLeft(archive, primary, spec, ms, limit, |Concat(files)|);
  }

  lemma ReopenedIsLeft(archive: map<nat, Str>, primary: Option<Str>, spec: seq<Str>, ms: seq<Mutation>, limit: nat,
                       n: nat)
    requires LateCut(EncodeMutation, spec, ms, n) && Laid(ChainFiles(archive, primary), spec, limit)
    requires primary.None? ==> ChainFiles(archive, primary) == spec
    ensures LeftByCrash(archive, Reopened(primary), ms, n)
  {
    LateAndEmpty(EncodeMutation, spec, ms, n);
    if primary.None? { assert ChainFiles(archive, Some([])) == ChainFiles(archive, primary) + [[]]; }
  }

  // ----- Starting on a torn log -----

  lemma OneFileLog(b: Str)
    ensures LoggedEvents(map[], Some(b)) == if ReadLog(b).verdict == Damaged then None else Some(ReadLog(b).ms)
  {
    NoArchives(b);
    DecoderIsFraming();
    OneSegment(DecodeOne, b);
  }

  /**
    The server came up on a log torn after one or two bytes of an event, and has logged at least one
    event since. It will not come up again.
  */
  lemma TornLogStopsServer(b: Str, ms: seq<Mutation>, m: Mutation, d: nat, more: seq<Mutation>)
    requires EndsInside(b, ms, m, d) && d <= 2 && more != []
    ensures LoggedEvents(map[], Some(b + EncodeBatch(more))) == None
  {
    TornInMagic(b, ms, m, d, more);
    OneFileLog(b + EncodeBatch(more));
  }

  /** A put is logged, a crash tears the put of a long value behind it, a deletion is logged: the key comes back. */
  lemma DeletedKeyComesBack(a: Str, b: Str, value: Str, now: i64)
    requires |a| < U32 && |b| < U32 && |a| + 20 <= |value| < 0x8000_0000
    ensures var put, del := PutM(a, Fresh(StringV([])), now), DelM(a, now);
            var long := PutM(b, Fresh(StringV(value)), now);
            var disk := EncodeBatch([put]) + EncodeMutation(long)[..20 + |b|] + EncodeBatch([del]);
            && LoggedEvents(map[], Some(disk)) == Some([put])
            && a in Replay.Replay(map[], [put]) && a !in Replay.Replay(map[], [put, del])
  {
    var put, del, long := PutM(a, Fresh(StringV([])), now), DelM(a, now), PutM(b, Fresh(StringV(value)), now);
    var disk, more := EncodeBatch([put]) + EncodeMutation(long)[..20 + |b|], EncodeBatch([del]);
    PutSize(a, [], now);
    PutSize(b, value, now);
    EncodeSnoc(EncodeMutation, [], del);
    assert [] + [del] == [del] && |more| == 20 + |a|;
    TornRecordLosesAll(disk, [put], long, 20 + |b|, more);
    OneFileLog(disk + more);
    ReplayThree(map[], put, del, del);
  }

  lemma PutSize(key: Str, value: Str, now: i64)
    requires |key| < U32 && |value| < 0x8000_0000
    ensures var m := PutM(key, Fresh(StringV(value)), now);
            WellFormed(m) && |EncodeMutation(m)| == 57 + |key| + |value|
  {
    var r := Fresh(StringV(value));
    assert |Payload(r.value)| == 4 + |value| && |EncodeRecord(r)| == 33 + |Payload(r.value)|;
  }
}
