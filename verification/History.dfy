/**
  Whole histories: commands, the background sweep and snapshot dumps interleaved in time, what
  recovery makes of the snapshot and log they leave behind, and how lazy expiry looks from outside.
*/
module History {
  import opened Bytes
  import opened Model
  import opened Commands
  import opened Replay

  /**
    A command runs under the byte limit then in force, 0 for none; the sweep runs a PTTL on a key; a
    dump looks one key up and drops it unlogged if it has expired; FLUSHALL empties the store and logs
    that; a restart recovers from a snapshot and the whole log. After a crash the log holds its first
    kept events, and the server comes up on what they replay to over whatever snapshot there is.
  */
  datatype Event =
    | Cmd(c: Command, at: i64, limit: nat)
    | Sweep(key: Str, at: i64)
    | Peek(key: Str, at: i64)
    | FlushAll(at: i64)
    | Restart(snapshot: Store, at: i64)
    | Crash(kept: nat, snapshot: Store, at: i64)

  /**
    seen collects the records snapshots can consist of: each was under its key between two events. base
    is the snapshot the server came up on after the last crash.
  */
  datatype World = World(store: Store, log: seq<Mutation>, now: int, seen: set<(Str, Record)>, base: Store)

  function ClearM(now: i64): Mutation { Mutation(CLEAR, [], None, now) }

  lemma ClearReplays(s: Store, now: i64)
    ensures Replay.Replay(s, [ClearM(now)]) == map[]
  {
    ReplayOne(s, [], ClearM(now));
    assert [] + [ClearM(now)] == [ClearM(now)];
  }

  function Cut(log: seq<Mutation>, kept: nat): seq<Mutation> { if kept < |log| then log[..kept] else log }

  ghost function StepOf(w: World, e: Event): Outcome {
    match e
    case Cmd(c, at, limit) => Run(w.store, c, at, limit)
    case Sweep(k, at) => Run(w.store, Pttl(k), at, 0)
    case Peek(k, at) => Outcome(Done(Nil), [], Found(w.store, k, at))
    case FlushAll(at) => Outcome(Done(Nil), [ClearM(at)], map[])
    case Restart(snapshot, at) => Outcome(Done(Nil), [], Replay.Replay(snapshot, w.log))
    case Crash(kept, snapshot, at) => Outcome(Done(Nil), [], Replay.Replay(snapshot, Cut(w.log, kept)))
  }

  /** Of what was seen before a crash only that is of use whose keys are touched by the log that is left. */
  ghost function Step(w: World, e: Event): World {
    var o := StepOf(w, e);
    if e.Crash? then
      var log := Cut(w.log, e.kept);
      var seen := (set p | p in w.seen && Touched(log, p.0)) + o.after.Items + e.snapshot.Items;
      World(o.after, log, e.at, seen, e.snapshot)
    else World(o.after, w.log + o.muts, e.at, w.seen + o.after.Items, w.base)
  }

  ghost function After(es: seq<Event>): World {
    if es == [] then World(map[], [], -0x8000_0000_0000_0000, {}, map[])
    else Step(After(es[..|es| - 1]), es[|es| - 1])
  }

  /** A snapshot pieced together from records that were in the store at various moments of the history. */
  ghost predicate ReadFrom(snapshot: Store, w: World) {
    forall k :: k in snapshot ==> (k, snapshot[k]) in w.seen
  }

  /** The snapshot has every record that is neither in the log nor expired: it came with the last crash. */
  ghost predicate Complete(snapshot: Store, w: World) {
    forall k :: k in w.base && !Touched(w.log, k) && !Expired(w.base[k], w.now) ==> k in snapshot
  }

  /** It has the expired ones too. */
  ghost predicate Covers(snapshot: Store, w: World) {
    forall k :: k in w.base && !Touched(w.log, k) ==> k in snapshot
  }

  ghost predicate Usable(snapshot: Store, w: World) { ReadFrom(snapshot, w) && Complete(snapshot, w) }

  /** A history from an empty store, in time order, that restarts only from its own snapshots. */
  ghost predicate Timely(es: seq<Event>) {
    es != [] ==>
      var n := |es| - 1;
      && Timely(es[..n])
      && After(es[..n]).now <= es[n].at
      && (es[n].Restart? ==> Usable(es[n].snapshot, After(es[..n])))
  }

  /** The quota never refuses a command after it has stored an empty container. */
  ghost predicate Unstranded(es: seq<Event>) {
    es != [] ==>
      var n := |es| - 1;
      Unstranded(es[..n]) && (es[n].Cmd? ==> !Stranded(After(es[..n]).store, es[n].c, es[n].at, es[n].limit))
  }

  ghost predicate Legal(es: seq<Event>) { Timely(es) && Unstranded(es) }

  /** The step changes the store and does not log all of it. */
  ghost predicate Unlogged(w: World, e: Event) {
    || (e.Peek? && Found(w.store, e.key, e.at) != w.store)
    || (e.Cmd? && Torn(w.store, e.c, e.at, e.limit))
    || (e.Restart? && !Covers(e.snapshot, w))
  }

  ghost predicate FullyLogged(es: seq<Event>) {
    es != [] ==>
      var n := |es| - 1;
      FullyLogged(es[..n]) && !Unlogged(After(es[..n]), es[n])
  }

  // ----- The log alone -----

  /** The store a replay of the whole log gives. */
  ghost function Replayed(w: World): Store { Replay.Replay(w.base, w.log) }

  /** At key k the two stores agree, except for a record that has expired and is gone from the first. */
  ghost predicate Agree(s: Store, r: Store, now: int, k: Str) {
    SameAt(s, r, k) || (k !in s && k in r && Expired(r[k], now))
  }

  ghost predicate AgreesAt(w: World, k: Str) { Agree(w.store, Replayed(w), w.now, k) }

  /** Record r under k is in the log's keeping, or it came with the last crash. */
  ghost predicate Known(w: World, k: Str, r: Record) {
    Touched(w.log, k) || (k in w.base && w.base[k] == r)
  }

  ghost predicate SeenIsKnown(w: World) { forall k, r :: (k, r) in w.seen ==> Known(w, k, r) }

  ghost predicate Good(w: World) {
    && (forall k :: AgreesAt(w, k))
    && SeenIsKnown(w)
    && w.store.Items <= w.seen
  }

  lemma TouchedMonotone(a: seq<Mutation>, b: seq<Mutation>, k: Str)
    ensures Touched(a, k) || Touched(b, k) ==> Touched(a + b, k)
  {
    if Touched(a, k) {
      var i :| 0 <= i < |a| && Touches(a[i], k);
      assert Touches((a + b)[i], k);
    } else if Touched(b, k) {
      var i :| 0 <= i < |b| && Touches(b[i], k);
      assert Touches((a + b)[|a| + i], k);
    }
  }

  lemma ReplayAgrees(s: Store, r: Store, ms: seq<Mutation>, now: int, k: Str)
    requires Agree(s, r, now, k)
    ensures Agree(Replay.Replay(s, ms), Replay.Replay(r, ms), now, k)
  {
    if SameAt(s, r, k) || Touched(ms, k) {
      ReplayAt(s, r, ms, k);
    } else {
      ReplayAt(s, s, ms, k);
      ReplayAt(r, r, ms, k);
    }
  }

  /** A command with a log that is exact on the store is as good as exact on the replayed log. */
  lemma LoggedStepAgrees(w: World, o: Outcome, at: int, k: Str)
    requires AgreesAt(w, k) && at >= w.now && ExactOn(w.store, o)
    ensures AgreesAt(w.(store := o.after, log := w.log + o.muts, now := at), k)
  {
    ReplayAppend(w.base, w.log, o.muts);
    ReplayAgrees(w.store, Replayed(w), o.muts, w.now, k);
  }

  /** Dropping an expired record without logging it is as good as keeping it. */
  lemma DroppedAgrees(w: World, own: Str, at: i64, k: Str)
    requires AgreesAt(w, k) && at >= w.now
    ensures AgreesAt(w.(store := Found(w.store, own, at), now := at), k) && AgreesAt(w.(now := at), k)
  {
  }

  /** A command that was not refused half-way with an empty container stored. */
  lemma CommandAgrees(w: World, c: Command, at: i64, limit: nat, k: Str)
    requires AgreesAt(w, k) && at >= w.now && !Stranded(w.store, c, at, limit)
    ensures var o := Run(w.store, c, at, limit); AgreesAt(w.(store := o.after, log := w.log + o.muts, now := at), k)
  {
    if WillBeRefused(w.store, c, at, limit) {
      RefusedLeaves(w.store, c, at, limit);
      assert w.log + [] == w.log;
      DroppedAgrees(w, c.key, at, k);
    } else {
      RefusedIff(w.store, c, at, limit);
      LogIsExact(w.store, c, at, limit);
      LoggedStepAgrees(w, Run(w.store, c, at, limit), at, k);
    }
  }

  /** Recovering from a usable snapshot of the history gives what the engine came from, key by key. */
  lemma RestartAgrees(w: World, snapshot: Store, k: Str)
    requires Good(w) && Usable(snapshot, w)
    ensures Agree(Replay.Replay(snapshot, w.log), Replayed(w), w.now, k)
  {
    if k in snapshot { assert (k, snapshot[k]) in w.seen; }
    if Touched(w.log, k) {
      ReplayAt(snapshot, w.base, w.log, k);
    } else {
      ReplayAgrees(snapshot, w.base, w.log, w.now, k);
    }
  }

  /** It gives exactly that if the snapshot lacks none of the records that came with the last crash alone. */
  lemma RestartIsReplayIff(w: World, snapshot: Store)
    requires SeenIsKnown(w) && ReadFrom(snapshot, w)
    ensures Replay.Replay(snapshot, w.log) == Replayed(w) <==> Covers(snapshot, w)
  {
    BasesIff(snapshot, w.base, w.log);
    forall k | k in snapshot && !Touched(w.log, k) ensures SameAt(snapshot, w.base, k) {
      assert (k, snapshot[k]) in w.seen;
    }
  }

  /** Without such a crash, recovering from a snapshot of the history gives what the log alone gives. */
  lemma RestartIsReplay(w: World, snapshot: Store)
    requires SeenIsKnown(w) && w.base == map[] && ReadFrom(snapshot, w)
    ensures Usable(snapshot, w) && Replay.Replay(snapshot, w.log) == Replay.Replay(map[], w.log)
  {
    RestartIsReplayIff(w, snapshot);
  }

  /** A step that keeps store and log in agreement. */
  ghost predicate Harmless(w: World, e: Event) {
    && e.at >= w.now && (e.Restart? ==> Usable(e.snapshot, w))
    && (e.Cmd? ==> !Stranded(w.store, e.c, e.at, e.limit))
  }

  lemma StepAgrees(w: World, e: Event, k: Str)
    requires Good(w) && Harmless(w, e)
    ensures AgreesAt(Step(w, e), k)
  {
    assert AgreesAt(w, k);
    assert w.log + [] == w.log;
    match e
    case Cmd(c, at, limit) => CommandAgrees(w, c, at, limit, k);
    case Sweep(key, at) =>
      SweepNeedsNoRoom(w.store, key, at, 0);
      CommandAgrees(w, Pttl(key), at, 0, k);
    case Peek(key, at) => DroppedAgrees(w, key, at, k);
    case FlushAll(at) =>
      ClearReplays(w.store, at);
      LoggedStepAgrees(w, StepOf(w, e), at, k);
    case Restart(snapshot, at) => RestartAgrees(w, snapshot, k);
    case Crash(kept, snapshot, at) =>
  }

  /** Whatever is in the store was put there by the log or came with the last crash. */
  lemma StoredIsKnown(w: World, k: Str)
    requires AgreesAt(w, k) && k in w.store
    ensures Known(w, k, w.store[k])
  {
    if !Touched(w.log, k) { ReplayAt(w.base, w.base, w.log, k); }
  }

  lemma SeenStaysKnown(w: World, e: Event, k: Str, r: Record)
    requires Good(w) && (k, r) in Step(w, e).seen && (k, r) !in Step(w, e).store.Items
    ensures Known(Step(w, e), k, r)
  {
    if !e.Crash? { TouchedMonotone(w.log, StepOf(w, e).muts, k); }
  }

  lemma GoodStep(w: World, e: Event)
    requires Good(w) && Harmless(w, e)
    ensures Good(Step(w, e))
  {
    var w' := Step(w, e);
    forall k ensures AgreesAt(w', k) { StepAgrees(w, e, k); }
    forall k, r | (k, r) in w'.seen ensures Known(w', k, r) {
      if (k, r) !in w'.store.Items {
        SeenStaysKnown(w, e, k, r);
      } else {
        assert k in w'.store && w'.store[k] == r;
        StoredIsKnown(w', k);
      }
    }
  }

  lemma {:induction false} HistoryIsGood(es: seq<Event>)
    requires Legal(es)
    ensures Good(After(es))
  {
    if es != [] {
      HistoryIsGood(es[..|es| - 1]);
      GoodStep(After(es[..|es| - 1]), es[|es| - 1]);
    }
  }

  /** What a reader at time t can observe of a store. */
  function LiveView(s: Store, t: int): Store { map k | k in s && !Expired(s[k], t) :: s[k] }

  lemma AgreeingViews(s: Store, r: Store, now: int, t: int)
    requires t >= now && forall k :: Agree(s, r, now, k)
    ensures LiveView(r, t) == LiveView(s, t)
  {
    forall k ensures SameAt(LiveView(r, t), LiveView(s, t), k) { assert Agree(s, r, now, k); }
    SameEverywhere(LiveView(r, t), LiveView(s, t));
  }

  lemma GoodViews(w: World, t: int)
    requires Good(w) && t >= w.now
    ensures LiveView(Replayed(w), t) == LiveView(w.store, t)
  {
    forall k ensures Agree(w.store, Replayed(w), w.now, k) { assert AgreesAt(w, k); }
    AgreeingViews(w.store, Replayed(w), w.now, t);
  }

  lemma RestartViews(w: World, snapshot: Store, t: int)
    requires Good(w) && Usable(snapshot, w) && t >= w.now
    ensures LiveView(Replay.Replay(snapshot, w.log), t) == LiveView(w.store, t)
  {
    var s := Replay.Replay(snapshot, w.log);
    forall k ensures Agree(s, Replayed(w), w.now, k) { RestartAgrees(w, snapshot, k); }
    AgreeingViews(s, Replayed(w), w.now, t);
    GoodViews(w, t);
  }

  /**
    Recovery from any fuzzy snapshot of a history followed by the whole log: at every later time the
    recovered store looks like the engine's own.
  */
  lemma FuzzySnapshotRecovery(es: seq<Event>, snapshot: Store, t: int)
    requires Legal(es) && Usable(snapshot, After(es)) && t >= After(es).now
    ensures LiveView(Replay.Replay(snapshot, After(es).log), t) == LiveView(After(es).store, t)
  {
    HistoryIsGood(es);
    RestartViews(After(es), snapshot, t);
  }

  lemma IncompleteShows(w: World, snapshot: Store)
    requires Good(w) && !Complete(snapshot, w)
    ensures LiveView(Replay.Replay(snapshot, w.log), w.now) != LiveView(w.store, w.now)
  {
    var k :| k in w.base && !Touched(w.log, k) && !Expired(w.base[k], w.now) && k !in snapshot;
    ReplayAt(snapshot, snapshot, w.log, k);
    ReplayAt(w.base, w.base, w.log, k);
    assert AgreesAt(w, k);
    assert k in LiveView(w.store, w.now) && k !in LiveView(Replay.Replay(snapshot, w.log), w.now);
  }

  /** That is so exactly for the snapshots that have what came with the last crash and is nowhere in the log. */
  lemma SnapshotRecoversIff(es: seq<Event>, snapshot: Store)
    requires Legal(es) && ReadFrom(snapshot, After(es))
    ensures var w := After(es);
            (forall t :: t >= w.now ==> LiveView(Replay.Replay(snapshot, w.log), t) == LiveView(w.store, t))
            <==> Complete(snapshot, w)
  {
    HistoryIsGood(es);
    if Complete(snapshot, After(es)) {
      forall t | t >= After(es).now
        ensures LiveView(Replay.Replay(snapshot, After(es).log), t) == LiveView(After(es).store, t)
      {
        RestartViews(After(es), snapshot, t);
      }
    } else {
      IncompleteShows(After(es), snapshot);
    }
  }

  /** A history in which no crash comes up on a snapshot. */
  ghost predicate LogOnly(es: seq<Event>) { forall i :: 0 <= i < |es| && es[i].Crash? ==> es[i].snapshot == map[] }

  lemma {:induction false} LogOnlyBase(es: seq<Event>)
    requires LogOnly(es)
    ensures After(es).base == map[]
  {
    if es != [] { LogOnlyBase(es[..|es| - 1]); }
  }

  /** Property p holds after every number of steps. */
  ghost predicate Throughout<E(!new)>(p: seq<E> -> bool, es: seq<E>) {
    forall j :: 0 <= j <= |es| ==> p(es[..j])
  }

  lemma ThroughoutSnoc<E(!new)>(p: seq<E> -> bool, es: seq<E>)
    ensures Throughout(p, es) <==> p(es) && (es != [] ==> Throughout(p, es[..|es| - 1]))
  {
    assert es[..|es|] == es;
    if es != [] {
      var n := |es| - 1;
      assert forall j :: 0 <= j <= n ==> es[..n][..j] == es[..j];
    }
  }

  /** What a reader sees of the store, now and later, is what a replay of the log would show. */
  ghost predicate LooksReplayed(w: World) {
    forall t :: t >= w.now ==> LiveView(Replayed(w), t) == LiveView(w.store, t)
  }

  ghost predicate LogStandsIn(es: seq<Event>) { LooksReplayed(After(es)) }

  /** An empty container left behind shows at once, and the log does not know of it. */
  lemma StrandedShows(w: World, e: Event)
    requires Good(w) && e.Cmd? && e.at >= w.now && Stranded(w.store, e.c, e.at, e.limit)
    ensures !LooksReplayed(Step(w, e))
  {
    var k := e.c.key;
    var w' := Step(w, e);
    RefusedLeaves(w.store, e.c, e.at, e.limit);
    assert w.log + [] == w.log && AgreesAt(w, k);
    assert k in LiveView(w'.store, w'.now) && k !in LiveView(Replayed(w'), w'.now);
  }

  /**
    Over every history under any limits, the log can stand in for the store at all times exactly if no
    command is ever refused after it has stored an empty container.
  */
  lemma {:induction false} LooksReplayedIff(es: seq<Event>)
    requires Timely(es)
    ensures Throughout(LogStandsIn, es) <==> Unstranded(es)
  {
    ThroughoutSnoc(LogStandsIn, es);
    if es == [] {
      LegalLooksReplayed(es);
    } else {
      var n := |es| - 1;
      LooksReplayedIff(es[..n]);
      if Unstranded(es) {
        LegalLooksReplayed(es);
      } else if Unstranded(es[..n]) {
        HistoryIsGood(es[..n]);
        StrandedShows(After(es[..n]), es[n]);
      }
    }
  }

  lemma LegalLooksReplayed(es: seq<Event>)
    requires Legal(es)
    ensures LogStandsIn(es)
  {
    HistoryIsGood(es);
    forall t | t >= After(es).now ensures LiveView(Replayed(After(es)), t) == LiveView(After(es).store, t) {
      GoodViews(After(es), t);
    }
  }

  // ----- The log rebuilds the store exactly -----

  ghost predicate Exact(w: World) { Replayed(w) == w.store }

  ghost predicate LogIsExactAfter(es: seq<Event>) { Exact(After(es)) }

  lemma {:induction false} FullyLoggedIsUnstranded(es: seq<Event>)
    requires FullyLogged(es)
    ensures Unstranded(es)
  {
    if es != [] {
      var n := |es| - 1;
      FullyLoggedIsUnstranded(es[..n]);
      var s, e := After(es[..n]).store, es[n];
      if e.Cmd? && Stranded(s, e.c, e.at, e.limit) { StrandedIsTorn(s, e.c, e.at, e.limit); }
    }
  }

  /** From an exact log, one step leads to an exact log just if it changes nothing unlogged. */
  lemma StepIsExactIff(w: World, e: Event)
    requires Exact(w) && Good(w) && (e.Restart? ==> ReadFrom(e.snapshot, w))
    ensures Exact(Step(w, e)) <==> !Unlogged(w, e)
  {
    if !e.Crash? { ReplayAppend(w.base, w.log, StepOf(w, e).muts); }
    match e
    case Cmd(c, at, limit) => ExactIffNotTorn(w.store, c, at, limit);
    case Sweep(key, at) =>
      SweepNeedsNoRoom(w.store, key, at, 0);
      ExactIffNotTorn(w.store, Pttl(key), at, 0);
    case FlushAll(at) => ClearReplays(w.store, at);
    case Restart(snapshot, at) =>
      assert w.log + [] == w.log;
      RestartIsReplayIff(w, snapshot);
    case _ =>
  }

  lemma FullyLoggedIsGood(es: seq<Event>)
    requires Timely(es) && FullyLogged(es)
    ensures Good(After(es))
  {
    FullyLoggedIsUnstranded(es);
    HistoryIsGood(es);
  }

  /** If every change is logged, the log rebuilds the store exactly. */
  lemma {:induction false} LogRebuildsStore(es: seq<Event>)
    requires Timely(es) && FullyLogged(es)
    ensures Exact(After(es))
  {
    if es != [] {
      var n := |es| - 1;
      LogRebuildsStore(es[..n]);
      FullyLoggedIsGood(es[..n]);
      StepIsExactIff(After(es[..n]), es[n]);
    }
  }

  /**
    Over every history under any limits, the log rebuilds the store exactly at all times just if no dump
    and no restart drops an expired record and no command is refused after it has changed the store.
  */
  lemma {:induction false} LogRebuildsStoreIff(es: seq<Event>)
    requires Timely(es)
    ensures Throughout(LogIsExactAfter, es) <==> FullyLogged(es)
  {
    ThroughoutSnoc(LogIsExactAfter, es);
    if es != [] {
      var n := |es| - 1;
      LogRebuildsStoreIff(es[..n]);
      if FullyLogged(es[..n]) {
        LogRebuildsStore(es[..n]);
        FullyLoggedIsGood(es[..n]);
        StepIsExactIff(After(es[..n]), es[n]);
      }
    }
  }

  // ----- Lazy expiry looks like eager expiry -----

  /** A store that never holds an expired record: no expiry logic, no log, no quota. */
  function Eager(e: Store, c: Command, now: i64): (r: (Answer, Store)) {
    if c.DbSize? then (Done(Int(|e|)), e)
    else if c.Keys? then (Done(KeySet(e.Keys)), e)
    else if c.Set? then (Done(Int(1)), e[c.key := Fresh(StringV(c.value))])
    else if c.Del? then (Done(Int(if c.key in e then 1 else 0)), e - {c.key})
    else if BadArgs(c) then (Err(InvalidArg), e)
    else Carried(Plan(c, if c.key in e then Some(e[c.key]) else None, now), e, c.key)
  }

  function Carried(p: Planned, e: Store, k: Str): (Answer, Store) {
    match p
    case Refused => (Err(WrongType), e)
    case Planned(reply, Keep) => (Done(reply), e)
    case Planned(reply, Erase) => (Done(reply), e - {k})
    case Planned(reply, Write(r)) => (Done(reply), e[k := r])
  }

  /**
    The eager store of a history: it drops records as time passes and knows nothing of sweeps, dumps and
    restarts. It is told which commands the engine's quota refuses, and what a crash left.
  */
  ghost function EagerAfter(es: seq<Event>): Store {
    if es == [] then map[]
    else
      var n := |es| - 1;
      var w, x := After(es[..n]), EagerAfter(es[..n]);
      match es[n]
      case Cmd(c, at, limit) => if WillBeRefused(w.store, c, at, limit) then x else Eager(LiveView(x, at), c, at).1
      case FlushAll(_) => map[]
      case Crash(kept, snapshot, _) => Replay.Replay(snapshot, Cut(w.log, kept))
      case _ => x
  }

  /** The commands whose answer does not depend on records that have expired but are still stored. */
  predicate Blind(c: Command) { Keyed(c) || c.Set? }

  /** At key k, either both new stores hold the same, or neither changed. */
  ghost predicate Tracks(s: Store, s': Store, e: Store, e': Store, k: Str) {
    SameAt(s', e', k) || (SameAt(s', s, k) && SameAt(e', e, k))
  }

  lemma CarryTracks(p: Planned, s: Store, before: seq<Mutation>, own: Str, empty: Option<DataValue>, now: i64,
                    limit: nat, e: Store, k: Str)
    requires !PlanRefused(p, s, own, empty, limit)
    ensures Carry(p, s, before, own, empty, now, limit).answer == Carried(p, e, own).0
    ensures Tracks(s, Carry(p, s, before, own, empty, now, limit).after, e, Carried(p, e, own).1, k)
  {
  }

  lemma KeyedTracks(s: Store, c: Command, now: i64, limit: nat, k: Str)
    requires Keyed(c) && !BadArgs(c) && !WillBeRefused(s, c, now, limit)
    ensures RunKeyed(s, c, now, limit).answer == Eager(LiveView(s, now), c, now).0
    ensures Tracks(s, RunKeyed(s, c, now, limit).after, LiveView(s, now), Eager(LiveView(s, now), c, now).1, k)
  {
    var e, mid := LiveView(s, now), Found(s, c.key, now);
    KeyedIsLive(s, c, now, limit);
    assert SameAt(mid, e, c.key);
    var p := Plan(c, if c.key in e then Some(e[c.key]) else None, now);
    CarryTracks(p, mid, if mid == s then [] else [DelM(c.key, now)], c.key, EmptyContainer(c), now, limit, e, k);
  }

  lemma StepTracks(s: Store, c: Command, now: i64, limit: nat, k: Str)
    requires !WillBeRefused(s, c, now, limit)
    ensures Blind(c) ==> Run(s, c, now, limit).answer == Eager(LiveView(s, now), c, now).0
    ensures Tracks(s, Run(s, c, now, limit).after, LiveView(s, now), Eager(LiveView(s, now), c, now).1, k)
  {
    if Keyed(c) && !BadArgs(c) { KeyedTracks(s, c, now, limit, k); }
  }

  lemma TrackedViews(s: Store, s': Store, e': Store, now: int, t: int)
    requires t >= now && forall k :: Tracks(s, s', LiveView(s, now), e', k)
    ensures LiveView(s', t) == LiveView(e', t)
  {
    forall k ensures SameAt(LiveView(s', t), LiveView(e', t), k) {
      assert Tracks(s, s', LiveView(s, now), e', k);
    }
    SameEverywhere(LiveView(s', t), LiveView(e', t));
  }

  lemma StepLooksEager(s: Store, c: Command, now: i64, limit: nat, t: int)
    requires t >= now && !WillBeRefused(s, c, now, limit)
    ensures Blind(c) ==> Run(s, c, now, limit).answer == Eager(LiveView(s, now), c, now).0
    ensures LiveView(Run(s, c, now, limit).after, t) == LiveView(Eager(LiveView(s, now), c, now).1, t)
  {
    var s', e' := Run(s, c, now, limit).after, Eager(LiveView(s, now), c, now).1;
    StepTracks(s, c, now, limit, []);
    forall k ensures Tracks(s, s', LiveView(s, now), e', k) { StepTracks(s, c, now, limit, k); }
    TrackedViews(s, s', e', now, t);
  }

  lemma ViewsCompose(s: Store, e: Store, now: int, t: int)
    requires LiveView(s, now) == LiveView(e, now) && t >= now
    ensures LiveView(s, t) == LiveView(e, t)
  {
    forall k ensures SameAt(LiveView(s, t), LiveView(e, t), k) {
      assert SameAt(LiveView(s, now), LiveView(e, now), k);
    }
    SameEverywhere(LiveView(s, t), LiveView(e, t));
  }

  /** Refused commands, unless they leave an empty container, sweeps, dumps and restarts. */
  ghost predicate Invisible(w: World, e: Event) {
    match e
    case Cmd(c, at, limit) => WillBeRefused(w.store, c, at, limit)
    case Sweep(_, _) => true
    case Peek(_, _) => true
    case Restart(_, _) => true
    case _ => false
  }

  lemma FoundLooksSame(s: Store, k: Str, at: i64)
    ensures LiveView(Found(s, k, at), at) == LiveView(s, at)
  {
    SameEverywhere(LiveView(Found(s, k, at), at), LiveView(s, at));
  }

  /** They change nothing a reader can see. */
  lemma InvisibleStep(w: World, e: Event)
    requires Good(w) && Harmless(w, e) && Invisible(w, e)
    ensures LiveView(StepOf(w, e).after, e.at) == LiveView(w.store, e.at)
  {
    match e
    case Cmd(c, at, limit) =>
      RefusedLeaves(w.store, c, at, limit);
      FoundLooksSame(w.store, c.key, at);
    case Sweep(k, at) =>
      SweepNeedsNoRoom(w.store, k, at, 0);
      StepLooksEager(w.store, Pttl(k), at, 0, at);
      ViewOfView(w.store, at);
    case Peek(k, at) => FoundLooksSame(w.store, k, at);
    case Restart(snapshot, at) =>
      RestartViews(w, snapshot, at);
  }

  lemma {:induction false} ViewsStayEqual(es: seq<Event>)
    requires Legal(es)
    ensures LiveView(After(es).store, After(es).now) == LiveView(EagerAfter(es), After(es).now)
  {
    if es != [] {
      var n := |es| - 1;
      var w, x, e := After(es[..n]), EagerAfter(es[..n]), es[n];
      ViewsStayEqual(es[..n]);
      ViewsCompose(w.store, x, w.now, e.at);
      HistoryIsGood(es[..n]);
      if Invisible(w, e) {
        InvisibleStep(w, e);
      } else if e.Cmd? {
        StepLooksEager(w.store, e.c, e.at, e.limit, e.at);
      }
    }
  }

  lemma ViewOfView(s: Store, t: int)
    ensures LiveView(LiveView(s, t), t) == LiveView(s, t)
  {
  }

  /**
    Over every history, with sweeps, dumps, restarts, crashes and refusals, the answer to the next command
    is QuotaExceeded if the engine's byte count says so, and else that of a store that drops records the
    instant they expire, unless the command is DEL, KEYS or DBSIZE.
  */
  lemma LazyLooksEager(es: seq<Event>, c: Command, at: i64, limit: nat)
    requires Legal(es) && at >= After(es).now && Blind(c)
    ensures Run(After(es).store, c, at, limit).answer ==
            if WillBeRefused(After(es).store, c, at, limit) then Err(QuotaExceeded)
            else Eager(LiveView(EagerAfter(es), at), c, at).0
  {
    RefusedIff(After(es).store, c, at, limit);
    if !WillBeRefused(After(es).store, c, at, limit) {
      ViewsStayEqual(es);
      ViewsCompose(After(es).store, EagerAfter(es), After(es).now, at);
      StepLooksEager(After(es).store, c, at, limit, at);
    }
  }

  /** DEL counts an expired record that is still stored; it agrees with the eager store exactly otherwise. */
  lemma DelAgreesIff(s: Store, k: Str, now: i64, limit: nat)
    ensures Run(s, Del(k), now, limit).answer == Eager(LiveView(s, now), Del(k), now).0
            <==> !(k in s && Expired(s[k], now))
  {
  }

  /** KEYS and DBSIZE agree with the eager store exactly when nothing expired is still stored. */
  lemma CountsAgreeIff(s: Store, now: i64, limit: nat)
    ensures Run(s, Keys, now, limit).answer == Eager(LiveView(s, now), Keys, now).0
            <==> forall k :: k in s ==> !Expired(s[k], now)
    ensures Run(s, DbSize, now, limit).answer == Eager(LiveView(s, now), DbSize, now).0
            <==> forall k :: k in s ==> !Expired(s[k], now)
  {
    var v := LiveView(s, now);
    assert v.Keys <= s.Keys && |v| == |v.Keys| && |s| == |s.Keys|;
    if |v.Keys| == |s.Keys| {
      SubsetOfSameSize(v.Keys, s.Keys);
    }
    if forall k :: k in s ==> !Expired(s[k], now) {
      assert v.Keys == s.Keys;
    } else {
      var k :| k in s && Expired(s[k], now);
      assert k in s.Keys && k !in v.Keys;
    }
  }

  lemma {:induction false} SubsetOfSameSize<T>(a: set<T>, b: set<T>)
    requires a <= b && |a| == |b|
    ensures a == b
  {
    var rest := b - a;
    assert b == a + rest && |b| == |a| + |rest|;
  }
}
