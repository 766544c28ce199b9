/** Replaying write events, and why the log a command emits reproduces what the command did. */
module Replay {
  import opened Bytes
  import opened Model
  import opened Sums
  import opened Commands

  /** Events recovery can apply; any other event makes it give up. */
  predicate Applicable(m: Mutation) {
    (m.kind == PUT && m.record.Some?) || m.kind == DEL || m.kind == CLEAR
  }

  function Apply(s: Store, m: Mutation): Store {
    if m.kind == PUT && m.record.Some? then s[m.key := m.record.value]
    else if m.kind == DEL then s - {m.key}
    else if m.kind == CLEAR then map[]
    else s
  }

  function Replay(s: Store, ms: seq<Mutation>): Store
    decreases |ms|
  {
    if ms == [] then s else Replay(Apply(s, ms[0]), ms[1..])
  }

  lemma {:induction false} ReplayAppend(s: Store, a: seq<Mutation>, b: seq<Mutation>)
    ensures Replay(s, a + b) == Replay(Replay(s, a), b)
    decreases |a|
  {
    if a == [] {
      assert a + b == b;
    } else {
      ReplayAppend(Apply(s, a[0]), a[1..], b);
      assert (a + b)[1..] == a[1..] + b;
    }
  }

  predicate Touches(m: Mutation, k: Str) {
    Applicable(m) && (m.kind == CLEAR || m.key == k)
  }

  predicate Touched(ms: seq<Mutation>, k: Str) {
    exists i :: 0 <= i < |ms| && Touches(ms[i], k)
  }

  /** Two stores agree on key k. */
  predicate SameAt(s: Store, t: Store, k: Str) {
    if k in s then k in t && s[k] == t[k] else k !in t
  }

  /**
    Every event decides the keys it touches on its own. So after a replay a touched key holds the
    same record whatever the replay started from, and an untouched key is as it was.
  */
  lemma {:induction false} ReplayAt(s: Store, t: Store, ms: seq<Mutation>, k: Str)
    requires SameAt(s, t, k) || Touched(ms, k)
    ensures SameAt(Replay(s, ms), Replay(t, ms), k)
    ensures !Touched(ms, k) ==> SameAt(Replay(s, ms), s, k)
    decreases |ms|
  {
    if ms != [] {
      var rest := ms[1..];
      if Touched(ms, k) && !Touches(ms[0], k) {
        var i :| 0 <= i < |ms| && Touches(ms[i], k);
        assert rest[i - 1] == ms[i];
      }
      ReplayAt(Apply(s, ms[0]), Apply(t, ms[0]), rest, k);
      if !Touched(ms, k) {
        assert forall i :: 0 <= i < |rest| ==> rest[i] == ms[i + 1];
      }
    }
  }

  lemma SameEverywhere(s: Store, t: Store)
    requires forall k :: SameAt(s, t, k)
    ensures s == t
  {
    forall k | k in s ensures k in t && s[k] == t[k] { assert SameAt(s, t, k); }
    forall k | k in t ensures k in s { assert SameAt(s, t, k); }
  }

  /** Two bases that agree on every key the log does not touch make no difference, and no others. */
  lemma BasesIff(s: Store, t: Store, ms: seq<Mutation>)
    ensures Replay(s, ms) == Replay(t, ms) <==> forall k :: Touched(ms, k) || SameAt(s, t, k)
  {
    if forall k :: Touched(ms, k) || SameAt(s, t, k) {
      forall k ensures SameAt(Replay(s, ms), Replay(t, ms), k) { ReplayAt(s, t, ms, k); }
      SameEverywhere(Replay(s, ms), Replay(t, ms));
    } else {
      var k :| !Touched(ms, k) && !SameAt(s, t, k);
      ReplayAt(s, s, ms, k);
      ReplayAt(t, t, ms, k);
    }
  }

  /** A base whose keys are all touched by the log leaves no trace in the result. */
  lemma BaseIsIrrelevant(base: Store, ms: seq<Mutation>)
    requires forall k :: k in base ==> Touched(ms, k)
    ensures Replay(base, ms) == Replay(map[], ms)
  {
    BasesIff(base, map[], ms);
  }

  // ----- The log of a command -----

  /** Events about key k that recovery can apply. */
  ghost predicate LogsOnly(ms: seq<Mutation>, k: Str) {
    forall i :: 0 <= i < |ms| ==> Applicable(ms[i]) && ms[i].kind != CLEAR && ms[i].key == k
  }

  /** An outcome whose log, replayed on s, gives exactly the new store. */
  ghost predicate ExactOn(s: Store, o: Outcome) {
    Replay(s, o.muts) == o.after
  }

  lemma ReplayOne(s: Store, a: seq<Mutation>, m: Mutation)
    ensures Replay(s, a + [m]) == Apply(Replay(s, a), m)
  {
    ReplayAppend(s, a, [m]);
    assert [m][1..] == [];
    assert Replay(Apply(Replay(s, a), m), []) == Apply(Replay(s, a), m);
  }

  lemma WriteExact(s: Store, mid: Store, before: seq<Mutation>, k: Str, r: Record, reply: Reply, now: i64, limit: nat)
    requires Replay(s, before) == mid && LogsOnly(before, k)
    ensures var o := RunWrite(mid, before, k, r, reply, now, limit);
            && LogsOnly(o.muts, k)
            && (o.answer.Done? ==> ExactOn(s, o)) && (o.answer.Err? ==> o.answer == Err(QuotaExceeded))
  {
    ReplayOne(s, before, PutM(k, r, now));
  }

  lemma CarryExact(p: Planned, s: Store, mid: Store, before: seq<Mutation>, k: Str, empty: Option<DataValue>,
                   now: i64, limit: nat)
    requires Replay(s, before) == mid && LogsOnly(before, k) && (k in mid ==> before == [])
    ensures var o := Carry(p, mid, before, k, empty, now, limit);
            && LogsOnly(o.muts, k) && (o.answer.Err? ==> o.muts == [])
            && (o.answer != Err(QuotaExceeded) && o.answer != Err(WrongType) ==> ExactOn(s, o))
            && (o.answer == Err(WrongType) ==> o.after == mid)
  {
    if p.Planned? && p.effect.Erase? {
      ReplayOne(s, before, DelM(k, now));
    } else if p.Planned? && p.effect.Write? {
      if k in mid || empty.None? {
        WriteExact(s, mid, before, k, p.effect.r, p.reply, now, limit);
      } else {
        var e := Fresh(empty.value);
        ReplayOne(s, before, PutM(k, e, now));
        WriteExact(s, mid[k := e], before + [PutM(k, e, now)], k, p.effect.r, p.reply, now, limit);
      }
    }
  }

  /** A command is refused only for the record it finds. */
  lemma RefusedNeedsRecord(c: Command, now: i64)
    requires Keyed(c)
    ensures Plan(c, None, now) != Refused
  {
  }

  lemma LiveExact(s: Store, mid: Store, before: seq<Mutation>, c: Command, now: i64, limit: nat)
    requires Keyed(c) && Replay(s, before) == mid && LogsOnly(before, c.key)
    requires c.key in mid ==> before == []
    ensures var o := RunLive(mid, before, c, now, limit);
            && LogsOnly(o.muts, c.key) && (o.answer.Err? ==> o.muts == [])
            && (o.answer != Err(QuotaExceeded) ==> ExactOn(s, o))
  {
    var k := c.key;
    var p := Plan(c, if k in mid then Some(mid[k]) else None, now);
    CarryExact(p, s, mid, before, k, EmptyContainer(c), now, limit);
    RefusedNeedsRecord(c, now);
  }

  /**
    For every command, argument, time and store: unless the answer is QuotaExceeded, replaying the
    emitted log on the old store gives exactly the new store. The log only speaks about the command's key.
  */
  lemma LogIsExact(s: Store, c: Command, now: i64, limit: nat)
    ensures var o := Run(s, c, now, limit);
            && (o.answer != Err(QuotaExceeded) ==> ExactOn(s, o))
            && (o.answer.Err? ==> o.muts == [])
            && (if c.DbSize? || c.Keys? then o.muts == [] else LogsOnly(o.muts, c.key))
  {
    assert Replay(s, []) == s;
    if c.Set? {
      WriteExact(s, s, [], c.key, Fresh(StringV(c.value)), Int(1), now, limit);
    } else if c.Del? {
      ReplayOne(s, [], DelM(c.key, now));
      assert [] + [DelM(c.key, now)] == [DelM(c.key, now)];
    } else if Keyed(c) {
      KeyedExact(s, c, now, limit);
    }
  }

  lemma ExpiryIsExact(s: Store, k: Str, now: i64)
    ensures Replay(s, [DelM(k, now)]) == s - {k} && LogsOnly([DelM(k, now)], k)
  {
    ReplayOne(s, [], DelM(k, now));
    assert [] + [DelM(k, now)] == [DelM(k, now)];
  }

  lemma KeyedExact(s: Store, c: Command, now: i64, limit: nat)
    requires Keyed(c)
    ensures var o := RunKeyed(s, c, now, limit);
            && LogsOnly(o.muts, c.key) && (o.answer.Err? ==> o.muts == [])
            && (o.answer != Err(QuotaExceeded) ==> ExactOn(s, o))
  {
    if c.key in s && Expired(s[c.key], now) {
      ExpiryIsExact(s, c.key, now);
      LiveExact(s, s - {c.key}, [DelM(c.key, now)], c, now, limit);
    } else {
      LiveExact(s, s, [], c, now, limit);
    }
  }

  // ----- Where the log falls short: a quota error after a partial change -----

  /** A quota error that leaves the store alone: nothing had expired, and no new container was stored. */
  ghost predicate RefusedCleanly(s: Store, c: Command, now: i64, limit: nat) {
    || c.Set?
    || (Keyed(c) && !(c.key in s && Expired(s[c.key], now)) &&
        (c.key in s || EmptyContainer(c).None? || !Allowed(s[c.key := Fresh(EmptyContainer(c).value)], limit)))
  }

  /** What is left after a quota error: the store as it was, or with the new container stored empty. */
  lemma CarryQuotaError(p: Planned, s: Store, before: seq<Mutation>, k: Str, empty: Option<DataValue>, now: i64,
                        limit: nat)
    requires Carry(p, s, before, k, empty, now, limit).answer == Err(QuotaExceeded)
    ensures var o := Carry(p, s, before, k, empty, now, limit);
            && o.muts == []
            && o.after == if k in s || empty.None? || !Allowed(s[k := Fresh(empty.value)], limit) then s
                          else s[k := Fresh(empty.value)]
  {
  }

  lemma LiveQuotaError(s: Store, before: seq<Mutation>, c: Command, now: i64, limit: nat)
    requires Keyed(c) && RunLive(s, before, c, now, limit).answer == Err(QuotaExceeded)
    ensures var o := RunLive(s, before, c, now, limit); var k, empty := c.key, EmptyContainer(c);
            && o.muts == []
            && o.after == if k in s || empty.None? || !Allowed(s[k := Fresh(empty.value)], limit) then s
                          else s[k := Fresh(empty.value)]
  {
    var p := Plan(c, if c.key in s then Some(s[c.key]) else None, now);
    CarryQuotaError(p, s, before, c.key, EmptyContainer(c), now, limit);
  }

  lemma KeyedQuotaError(s: Store, c: Command, now: i64, limit: nat)
    requires Keyed(c) && RunKeyed(s, c, now, limit).answer == Err(QuotaExceeded)
    ensures var o := RunKeyed(s, c, now, limit);
            o.muts == [] && (o.after == s <==> RefusedCleanly(s, c, now, limit))
  {
    var k := c.key;
    if k in s && Expired(s[k], now) {
      LiveQuotaError(s - {k}, [DelM(k, now)], c, now, limit);
      assert s[k].expireAt != -1;
    } else {
      LiveQuotaError(s, [], c, now, limit);
    }
  }

  /** After QuotaExceeded the log is empty, so it is exact just when the refusal was clean. */
  lemma QuotaErrorExactIff(s: Store, c: Command, now: i64, limit: nat)
    requires Run(s, c, now, limit).answer == Err(QuotaExceeded)
    ensures ExactOn(s, Run(s, c, now, limit)) <==> RefusedCleanly(s, c, now, limit)
  {
    assert Replay(s, []) == s;
    if !c.Set? { KeyedQuotaError(s, c, now, limit); }
  }

  /** The quota refuses plan p: the new record, or the empty container that is stored before it. */
  ghost predicate PlanRefused(p: Planned, s: Store, k: Str, empty: Option<DataValue>, limit: nat) {
    && p.Planned? && p.effect.Write?
    && if k in s || empty.None? then !Allowed(s[k := p.effect.r], limit)
       else
         var e := Fresh(empty.value);
         !Allowed(s[k := e], limit) || !Allowed(s[k := e][k := p.effect.r], limit)
  }

  /** The store as the command finds it, its own key's expired record removed. */
  function Found(s: Store, k: Str, now: i64): Store { if k in s && Expired(s[k], now) then s - {k} else s }

  /** Whether a command will run into the quota, told from the store and the command alone. */
  ghost predicate WillBeRefused(s: Store, c: Command, now: i64, limit: nat) {
    if c.Set? then !Allowed(s[c.key := Fresh(StringV(c.value))], limit)
    else
      && Keyed(c) && !BadArgs(c)
      && var mid := Found(s, c.key, now);
         var p := Plan(c, if c.key in mid then Some(mid[c.key]) else None, now);
         PlanRefused(p, mid, c.key, EmptyContainer(c), limit)
  }

  /** The command will be refused after it has changed the store. */
  ghost predicate Torn(s: Store, c: Command, now: i64, limit: nat) {
    WillBeRefused(s, c, now, limit) && !RefusedCleanly(s, c, now, limit)
  }

  lemma CarryRefusedIff(p: Planned, s: Store, before: seq<Mutation>, k: Str, empty: Option<DataValue>, now: i64,
                        limit: nat)
    ensures Carry(p, s, before, k, empty, now, limit).answer == Err(QuotaExceeded)
            <==> PlanRefused(p, s, k, empty, limit)
  {
  }

  lemma RefusedIff(s: Store, c: Command, now: i64, limit: nat)
    ensures Run(s, c, now, limit).answer == Err(QuotaExceeded) <==> WillBeRefused(s, c, now, limit)
  {
    if Keyed(c) && !BadArgs(c) {
      var mid := Found(s, c.key, now);
      var p := Plan(c, if c.key in mid then Some(mid[c.key]) else None, now);
      CarryRefusedIff(p, mid, if mid == s then [] else [DelM(c.key, now)], c.key, EmptyContainer(c), now, limit);
      KeyedIsLive(s, c, now, limit);
    }
  }

  lemma KeyedIsLive(s: Store, c: Command, now: i64, limit: nat)
    requires Keyed(c) && !BadArgs(c)
    ensures var mid := Found(s, c.key, now);
            RunKeyed(s, c, now, limit) == RunLive(mid, if mid == s then [] else [DelM(c.key, now)], c, now, limit)
  {
    if c.key in s && Expired(s[c.key], now) { assert c.key !in s - {c.key}; }
  }

  /**
    For every command, argument, time, store and limit: the emitted log replayed on the old store
    gives the new one exactly unless the command is going to be refused half-way.
  */
  lemma ExactIffNotTorn(s: Store, c: Command, now: i64, limit: nat)
    ensures ExactOn(s, Run(s, c, now, limit)) <==> !Torn(s, c, now, limit)
  {
    LogIsExact(s, c, now, limit);
    RefusedIff(s, c, now, limit);
    if Run(s, c, now, limit).answer == Err(QuotaExceeded) { QuotaErrorExactIff(s, c, now, limit); }
  }

  /** The command will be refused after it has stored its new container, which stays there empty. */
  ghost predicate Stranded(s: Store, c: Command, now: i64, limit: nat) {
    && WillBeRefused(s, c, now, limit) && EmptyContainer(c).Some?
    && var mid := Found(s, c.key, now);
       c.key !in mid && Allowed(mid[c.key := Fresh(EmptyContainer(c).value)], limit)
  }

  /** What a refused command leaves: no log, and the store as it found it or with an empty container more. */
  lemma RefusedLeaves(s: Store, c: Command, now: i64, limit: nat)
    requires WillBeRefused(s, c, now, limit)
    ensures Run(s, c, now, limit).answer == Err(QuotaExceeded) && Run(s, c, now, limit).muts == []
    ensures Run(s, c, now, limit).after == if c.Set? then s
                                           else if Stranded(s, c, now, limit)
                                           then Found(s, c.key, now)[c.key := Fresh(EmptyContainer(c).value)]
                                           else Found(s, c.key, now)
  {
    RefusedIff(s, c, now, limit);
    if !c.Set? {
      KeyedIsLive(s, c, now, limit);
      var mid := Found(s, c.key, now);
      LiveQuotaError(mid, if mid == s then [] else [DelM(c.key, now)], c, now, limit);
    }
  }

  lemma StrandedIsTorn(s: Store, c: Command, now: i64, limit: nat)
    requires Stranded(s, c, now, limit)
    ensures Torn(s, c, now, limit)
  {
  }

  /** Looking a key's remaining time up needs no room, so the sweep does the same under every limit. */
  lemma SweepNeedsNoRoom(s: Store, k: Str, now: i64, limit: nat)
    ensures Run(s, Pttl(k), now, limit) == Run(s, Pttl(k), now, 0) && !WillBeRefused(s, Pttl(k), now, limit)
  {
  }

  /** Pushing three bytes to a new list under a limit of 133 stores an empty list that the log does not mention. */
  lemma QuotaErrorLosesLog()
    ensures var o := Run(map[], LPush([107], [[1, 2, 3]]), 0, 133);
            o.answer == Err(QuotaExceeded) && o.muts == [] && o.after == map[[107] := Fresh(ListV([]))]
  {
    var k: Str, item: Str := [107], [1, 2, 3];
    var e, full := Fresh(ListV([])), Fresh(ListV([item]));
    var none: Store := map[];
    assert Reversed([item]) == [item] by { assert [item][1..] == []; assert Reversed([]) == []; }
    assert Sizes([item]) == 3 by { assert [item][1..] == []; }
    assert Footprint(k, e) == 133 && Footprint(k, full) == 136;
    MapSumPut(none, Footprint, k, e);
    MapSumPut(none, Footprint, k, full);
    MapSumPut(none[k := e], Footprint, k, full);
    assert none - {k} == none && none[k := e] - {k} == none;
    assert none[k := e][k := full] == none[k := full];
  }

  // ----- Quota over runs -----

  lemma ShrinkFits(s: Store, k: Str)
    ensures Used(s - {k}) <= Used(s)
  {
    if k in s { MapSumRemove(s, Footprint, k); } else { MapSumAbsent(s, Footprint, k); }
  }

  lemma LiveStaysWithinQuota(s: Store, before: seq<Mutation>, c: Command, now: i64, limit: nat)
    requires limit > 0 && Used(s) <= limit && Keyed(c)
    ensures Used(RunLive(s, before, c, now, limit).after) <= limit
  {
    ShrinkFits(s, c.key);
  }

  /** A command never takes a store over the limit, not even when it fails half-way. */
  lemma StaysWithinQuota(s: Store, c: Command, now: i64, limit: nat)
    requires limit > 0 && Used(s) <= limit
    ensures Used(Run(s, c, now, limit).after) <= limit
  {
    if !c.DbSize? && !c.Keys? { ShrinkFits(s, c.key); }
    if Keyed(c) && !BadArgs(c) {
      LiveStaysWithinQuota(s, [], c, now, limit);
      LiveStaysWithinQuota(s - {c.key}, [DelM(c.key, now)], c, now, limit);
    }
  }

  // ----- Whole runs of commands, whatever the limit -----

  datatype Timed = Timed(c: Command, now: i64)

  /** The last command's outcome and the log of the whole run. */
  ghost function RunAll(s: Store, cs: seq<Timed>, limit: nat): (Store, seq<Mutation>) {
    if cs == [] then (s, [])
    else
      var (mid, log) := RunAll(s, cs[..|cs| - 1], limit);
      var o := Run(mid, cs[|cs| - 1].c, cs[|cs| - 1].now, limit);
      (o.after, log + o.muts)
  }

  /** No command of the run is refused half-way. */
  ghost predicate CleanRun(s: Store, cs: seq<Timed>, limit: nat) {
    cs != [] ==>
      var n := |cs| - 1;
      CleanRun(s, cs[..n], limit) && !Torn(RunAll(s, cs[..n], limit).0, cs[n].c, cs[n].now, limit)
  }

  /** The log of a whole run rebuilds its last store. */
  lemma {:induction false} RunsAreExact(s: Store, cs: seq<Timed>, limit: nat)
    requires CleanRun(s, cs, limit)
    ensures Replay(s, RunAll(s, cs, limit).1) == RunAll(s, cs, limit).0
  {
    if cs != [] {
      var n := |cs| - 1;
      var (mid, log) := RunAll(s, cs[..n], limit);
      RunsAreExact(s, cs[..n], limit);
      ExactIffNotTorn(mid, cs[n].c, cs[n].now, limit);
      ReplayAppend(s, log, Run(mid, cs[n].c, cs[n].now, limit).muts);
    }
  }

  /** A run that starts within the limit stays within it. */
  lemma {:induction false} RunsStayWithinQuota(s: Store, cs: seq<Timed>, limit: nat)
    requires limit > 0 && Used(s) <= limit
    ensures Used(RunAll(s, cs, limit).0) <= limit
  {
    if cs != [] {
      var n := |cs| - 1;
      RunsStayWithinQuota(s, cs[..n], limit);
      StaysWithinQuota(RunAll(s, cs[..n], limit).0, cs[n].c, cs[n].now, limit);
    }
  }
}
