/** The storage engine: every command as the code runs it, proved against Commands.Run. */
module Engine {
  import opened Bytes
  import opened Model
  import opened Order
  import opened DataValueCodec
  import opened Commands
  import opened Backend
  import opened Replay
  import opened History

  lemma {:induction false} ReversedSnoc(items: seq<Str>, x: Str)
    ensures Reversed(items + [x]) == [x] + Reversed(items)
  {
    if items == [] {
      assert [x][1..] == [];
    } else {
      ReversedSnoc(items[1..], x);
      assert (items + [x])[1..] == items[1..] + [x];
    }
  }

  class StorageEngine {
    const backend: InMemoryBackend

    constructor (backend: InMemoryBackend)
      ensures this.backend == backend
    {
      this.backend := backend;
    }

    /** The store is well accounted for and the quota is in force. */
    ghost predicate Valid()
      reads backend
    {
      backend.Valid() && !backend.bypass
    }

    /** Method results and the new store together are the outcome of command c on the old store. */
    twostate predicate Ran(c: Command, now: i64, answer: Answer, muts: seq<Mutation>)
      reads backend
    {
      Outcome(answer, muts, backend.m) == Run(old(backend.m), c, now, backend.limit)
    }

    // ----- Strings and keys -----

    method RunSet(key: Str, value: Str, now: i64) returns (answer: Answer, muts: seq<Mutation>)
      requires Valid()
      modifies backend
      ensures Valid() && Ran(Set(key, value), now, answer, muts)
    {
      var r := Record(StringV(value), -1, 0);
      var ok := backend.PutRecord(key, r);
      if !ok { return Err(QuotaExceeded), []; }
      return Done(Int(1)), [PutM(key, r, now)];
    }

    method RunGet(key: Str, now: i64) returns (answer: Answer, muts: seq<Mutation>)
      requires Valid()
      modifies backend
      ensures Valid() && Ran(Get(key), now, answer, muts)
    {
      var r := backend.GetRecord(key);
      if r.None? { return Done(Nil), []; }
      if Expired(r.value, now) {
        var _ := backend.DelKey(key);
        return Done(Nil), [DelM(key, now)];
      }
      if !r.value.value.StringV? { return Err(WrongType), []; }
      return Done(Bulk(r.value.value.str)), [];
    }

    method RunDel(key: Str, now: i64) returns (answer: Answer, muts: seq<Mutation>)
      requires Valid()
      modifies backend
      ensures Valid() && Ran(Del(key), now, answer, muts)
    {
      var removed := backend.DelKey(key);
      if !removed {
        assert backend.m == old(backend.m);
        return Done(Int(0)), [];
      }
      return Done(Int(1)), [DelM(key, now)];
    }

    method RunExists(key: Str, now: i64) returns (answer: Answer, muts: seq<Mutation>)
      requires Valid()
      modifies backend
      ensures Valid() && Ran(Exists(key), now, answer, muts)
    {
      var r := backend.GetRecord(key);
      if r.None? { return Done(Int(0)), []; }
      if Expired(r.value, now) {
        var _ := backend.DelKey(key);
        return Done(Int(0)), [DelM(key, now)];
      }
      return Done(Int(1)), [];
    }

    // ----- Expiry -----

    method RunExpire(key: Str, seconds: i64, now: i64) returns (answer: Answer, muts: seq<Mutation>)
      requires Valid()
      modifies backend
      ensures Valid() && Ran(Expire(key, seconds), now, answer, muts)
    {
      if seconds < 0 { return Err(InvalidArg), []; }
      var r := backend.GetRecord(key);
      if r.None? { return Done(Int(0)), []; }
      if Expired(r.value, now) {
        var _ := backend.DelKey(key);
        return Done(Int(0)), [DelM(key, now)];
      }
      if seconds == 0 {
        var _ := backend.DelKey(key);
        return Done(Int(1)), [DelM(key, now)];
      }
      var r' := r.value.(expireAt := Wrap64(now + seconds * 1_000_000));
      var ok := backend.PutRecord(key, r');
      if !ok { return Err(QuotaExceeded), []; }
      return Done(Int(1)), [PutM(key, r', now)];
    }

    method RunPersist(key: Str, now: i64) returns (answer: Answer, muts: seq<Mutation>)
      requires Valid()
      modifies backend
      ensures Valid() && Ran(Persist(key), now, answer, muts)
    {
      var r := backend.GetRecord(key);
      if r.None? { return Done(Int(0)), []; }
      if Expired(r.value, now) {
        var _ := backend.DelKey(key);
        return Done(Int(0)), [DelM(key, now)];
      }
      var hadTtl := r.value.expireAt >= 0;
      var r' := r.value.(expireAt := -1);
      var ok := backend.PutRecord(key, r');
      if !ok { return Err(QuotaExceeded), []; }
      return Done(Int(if hadTtl then 1 else 0)), [PutM(key, r', now)];
    }

    /** TTL and PTTL: the same code with a different unit. */
    method RunTtl(key: Str, millis: bool, now: i64) returns (answer: Answer, muts: seq<Mutation>)
      requires Valid()
      modifies backend
      ensures Valid() && Ran(if millis then Pttl(key) else Ttl(key), now, answer, muts)
    {
      var r := backend.GetRecord(key);
      if r.None? { return Done(Int(-2)), []; }
      if Expired(r.value, now) {
        var _ := backend.DelKey(key);
        return Done(Int(-2)), [DelM(key, now)];
      }
      if r.value.expireAt < 0 { return Done(Int(-1)), []; }
      var remain := r.value.expireAt - now;
      return Done(Int(if millis then remain / 1_000 else remain / 1_000_000)), [];
    }

    // ----- Containers -----

    /** The live record under key; an expired one is removed and the removal is logged. */
    method GetLiveRecordOrExpire(key: Str, now: i64, ghost c: Command) returns (r: Option<Record>, muts: seq<Mutation>)
      requires Valid() && Keyed(c) && !BadArgs(c) && c.key == key
      modifies backend
      ensures Valid() && r == LiveAt(old(backend.m), key, now)
      ensures r == if key in backend.m then Some(backend.m[key]) else None
      ensures Run(old(backend.m), c, now, backend.limit) == RunLive(backend.m, muts, c, now, backend.limit)
      ensures r.Some? ==> muts == [] && backend.m == old(backend.m)
      ensures r.None? ==> backend.m == old(backend.m) - {key}
    {
      r := backend.GetRecord(key);
      muts := [];
      assert key !in backend.m ==> backend.m - {key} == backend.m;
      if r.Some? && Expired(r.value, now) {
        var _ := backend.DelKey(key);
        r, muts := None, [DelM(key, now)];
      }
    }

    /** The record to add to: the live container, or a new empty one that is stored and logged first. */
    method GetOrInitContainer(c: Command, now: i64) returns (r: Option<Record>, status: Status, muts: seq<Mutation>)
      requires Valid() && Keyed(c) && !BadArgs(c) && EmptyContainer(c).Some?
      modifies backend
      ensures Valid()
      ensures r.None? ==> Ran(c, now, Err(status), [])
      ensures r.Some? ==>
                var p := PlanPresent(c, r.value, now);
                && TypeByte(r.value.value) == TypeByte(EmptyContainer(c).value) && p.Planned? && p.effect.Write?
                && Run(old(backend.m), c, now, backend.limit) ==
                   RunWrite(backend.m, muts, c.key, p.effect.r, p.reply, now, backend.limit)
    {
      var key, want := c.key, EmptyContainer(c).value;
      r, muts := GetLiveRecordOrExpire(key, now, c);
      status := WrongType;
      if r.None? {
        CreateFromEmpty(c, now);
        var nr := Record(want, -1, 0);
        var ok := backend.PutRecord(key, nr);
        if !ok { return None, QuotaExceeded, []; }
        return Some(nr), WrongType, muts + [PutM(key, nr, now)];
      }
      AddsToItsOwnKind(c, r.value, now);
      if TypeByte(r.value.value) != TypeByte(want) {
        r, muts := None, [];
      }
    }

    /** Stores the changed container and answers. */
    method StoreContainer(key: Str, r: Record, reply: Reply, before: seq<Mutation>, now: i64)
      returns (answer: Answer, muts: seq<Mutation>)
      requires Valid()
      modifies backend
      ensures Valid()
      ensures Outcome(answer, muts, backend.m) == RunWrite(old(backend.m), before, key, r, reply, now, backend.limit)
    {
      var ok := backend.PutRecord(key, r);
      if !ok { return Err(QuotaExceeded), []; }
      return Done(reply), before + [PutM(key, r, now)];
    }

    /** Stores what is left of a container, or removes the key with its last element. */
    method StoreShrunk(ghost c: Command, r: Record, v: DataValue, isEmpty: bool, reply: Reply, key: Str, now: i64)
      returns (answer: Answer, muts: seq<Mutation>)
      requires Valid() && Keyed(c) && c.key == key && key in backend.m
      requires PlanPresent(c, backend.m[key], now) == Planned(reply, Shrink(r, v, isEmpty))
      modifies backend
      ensures Valid()
      ensures Outcome(answer, muts, backend.m) == RunLive(old(backend.m), [], c, now, backend.limit)
    {
      if isEmpty {
        var _ := backend.DelKey(key);
        return Done(reply), [DelM(key, now)];
      }
      answer, muts := StoreContainer(key, r.(value := v), reply, [], now);
    }

    method RunLPush(key: Str, items: seq<Str>, now: i64) returns (answer: Answer, muts: seq<Mutation>)
      requires Valid()
      modifies backend
      ensures Valid() && Ran(LPush(key, items), now, answer, muts)
    {
      if items == [] { return Err(InvalidArg), []; }
      var r, status, before := GetOrInitContainer(LPush(key, items), now);
      if r.None? { return Err(status), []; }
      assert PlanPresent(LPush(key, items), r.value, now) == PlanList(LPush(key, items), r.value, r.value.value.list);
      var l := PushFront(r.value.value.list, items);
      assert PlanList(LPush(key, items), r.value, r.value.value.list)
             == Planned(Int(|l|), Write(r.value.(value := ListV(l))));
      answer, muts := StoreContainer(key, r.value.(value := ListV(l)), Int(|l|), before, now);
    }

    method RunRPush(key: Str, items: seq<Str>, now: i64) returns (answer: Answer, muts: seq<Mutation>)
      requires Valid()
      modifies backend
      ensures Valid() && Ran(RPush(key, items), now, answer, muts)
    {
      if items == [] { return Err(InvalidArg), []; }
      var r, status, before := GetOrInitContainer(RPush(key, items), now);
      if r.None? { return Err(status), []; }
      assert PlanPresent(RPush(key, items), r.value, now) == PlanList(RPush(key, items), r.value, r.value.value.list);
      var l := PushBack(r.value.value.list, items);
      answer, muts := StoreContainer(key, r.value.(value := ListV(l)), Int(|l|), before, now);
    }

    method RunLPop(key: Str, now: i64) returns (answer: Answer, muts: seq<Mutation>)
      requires Valid()
      modifies backend
      ensures Valid() && Ran(LPop(key), now, answer, muts)
    {
      var r;
      r, muts := GetLiveRecordOrExpire(key, now, LPop(key));
      if r.None? { return Done(Nil), muts; }
      if !r.value.value.ListV? { return Err(WrongType), []; }
      var l := r.value.value.list;
      if l == [] { return Done(Nil), []; }
      var elem, rest := l[0], l[1..];
      answer, muts := StoreShrunk(LPop(key), r.value, ListV(rest), rest == [], Bulk(elem), key, now);
    }

    method RunRPop(key: Str, now: i64) returns (answer: Answer, muts: seq<Mutation>)
      requires Valid()
      modifies backend
      ensures Valid() && Ran(RPop(key), now, answer, muts)
    {
      var r;
      r, muts := GetLiveRecordOrExpire(key, now, RPop(key));
      if r.None? { return Done(Nil), muts; }
      if !r.value.value.ListV? { return Err(WrongType), []; }
      var l := r.value.value.list;
      if l == [] { return Done(Nil), []; }
      var elem, rest := l[|l| - 1], l[..|l| - 1];
      answer, muts := StoreShrunk(RPop(key), r.value, ListV(rest), rest == [], Bulk(elem), key, now);
    }

    method RunSAdd(key: Str, items: seq<Str>, now: i64) returns (answer: Answer, muts: seq<Mutation>)
      requires Valid()
      modifies backend
      ensures Valid() && Ran(SAdd(key, items), now, answer, muts)
    {
      if items == [] { return Err(InvalidArg), []; }
      var r, status, before := GetOrInitContainer(SAdd(key, items), now);
      if r.None? { return Err(status), []; }
      assert PlanPresent(SAdd(key, items), r.value, now) == PlanSet(SAdd(key, items), r.value, r.value.value.members);
      var m, added := InsertAll(r.value.value.members, items);
      answer, muts := StoreContainer(key, r.value.(value := SetV(m)), Int(added), before, now);
    }

    method RunSRem(key: Str, items: seq<Str>, now: i64) returns (answer: Answer, muts: seq<Mutation>)
      requires Valid()
      modifies backend
      ensures Valid() && Ran(SRem(key, items), now, answer, muts)
    {
      if items == [] { return Err(InvalidArg), []; }
      var r;
      r, muts := GetLiveRecordOrExpire(key, now, SRem(key, items));
      if r.None? { return Done(Int(0)), muts; }
      if !r.value.value.SetV? { return Err(WrongType), []; }
      var m, removed := EraseMembers(r.value.value.members, items);
      answer, muts := StoreShrunk(SRem(key, items), r.value, SetV(m), m == {}, Int(removed), key, now);
    }

    method RunHSet(key: Str, field: Str, value: Str, now: i64) returns (answer: Answer, muts: seq<Mutation>)
      requires Valid()
      modifies backend
      ensures Valid() && Ran(HSet(key, field, value), now, answer, muts)
    {
      var r, status, before := GetOrInitContainer(HSet(key, field, value), now);
      if r.None? { return Err(status), []; }
      var h := r.value.value.fields;
      var isNew := field !in h;
      h := h[field := value];
      assert PlanPresent(HSet(key, field, value), r.value, now)
             == Planned(Int(if isNew then 1 else 0), Write(r.value.(value := HashV(h))));
      answer, muts := StoreContainer(key, r.value.(value := HashV(h)), Int(if isNew then 1 else 0), before, now);
    }

    method RunHDel(key: Str, items: seq<Str>, now: i64) returns (answer: Answer, muts: seq<Mutation>)
      requires Valid()
      modifies backend
      ensures Valid() && Ran(HDel(key, items), now, answer, muts)
    {
      if items == [] { return Err(InvalidArg), []; }
      var r;
      r, muts := GetLiveRecordOrExpire(key, now, HDel(key, items));
      if r.None? { return Done(Int(0)), muts; }
      if !r.value.value.HashV? { return Err(WrongType), []; }
      var h, deleted := EraseFields(r.value.value.fields, items);
      answer, muts := StoreShrunk(HDel(key, items), r.value, HashV(h), |h| == 0, Int(deleted), key, now);
    }

    /** LLEN, LINDEX, SCARD, SISMEMBER, SMEMBERS, HGET, HLEN, HEXISTS, HGETALL: nine methods of one shape. */
    method RunRead(c: Command, now: i64) returns (answer: Answer, muts: seq<Mutation>)
      requires Valid() && ReadsContainer(c)
      modifies backend
      ensures Valid() && Ran(c, now, answer, muts)
    {
      var r;
      r, muts := GetLiveRecordOrExpire(c.key, now, c);
      if r.None? {
        return Done(if c.LIndex? || c.HGet? then Nil else if c.SMembers? || c.HGetAll? then List([]) else Int(0)), muts;
      }
      answer := ReadContainer(c, r.value, now);
      muts := [];
    }

    // ----- Recovery and maintenance -----

    /** Applies one logged event, bypassing the quota; the quota is back in force afterwards. */
    method ApplyMutation(m: Mutation) returns (ok: bool)
      requires Valid()
      modifies backend
      ensures Valid() && ok == Applicable(m) && backend.m == Apply(old(backend.m), m)
    {
      backend.bypass := true;
      ok := true;
      if m.kind == PUT {
        if m.record.None? {
          ok := false;
        } else {
          ok := backend.PutRecord(m.key, m.record.value);
        }
      } else if m.kind == DEL {
        var _ := backend.DelKey(m.key);
      } else if m.kind == CLEAR {
        backend.ClearAll();
      } else {
        ok := false;
      }
      backend.bypass := false;
    }

    /** Replaces the store by the records of a snapshot, whatever the quota says; a later record wins. */
    method LoadSnapshot(records: seq<(Str, Record)>)
      requires Valid()
      modifies backend
      ensures Valid() && backend.m == SnapshotStore(records)
    {
      backend.bypass := true;
      backend.ClearAll();
      for i := 0 to |records|
        invariant backend.Valid() && backend.bypass && backend.m == SnapshotStore(records[..i])
      {
        assert records[..i + 1][..i] == records[..i];
        var _ := backend.PutRecord(records[i].0, records[i].1);
      }
      assert records[..|records|] == records;
      backend.bypass := false;
    }

    /** FLUSHALL: the store is loaded from an empty snapshot, and one entry says so. */
    method RunFlushAll(now: i64) returns (muts: seq<Mutation>)
      requires Valid()
      modifies backend
      ensures Valid() && backend.m == map[] && muts == [ClearM(now)]
      ensures Replay.Replay(old(backend.m), muts) == backend.m
    {
      ClearReplays(backend.m, now);
      LoadSnapshot([]);
      muts := [ClearM(now)];
    }

    /** Looks one key up the way every command does, and forgets the log entry of an expiry. */
    method PeekLive(key: Str, now: i64) returns (r: Option<Record>)
      requires Valid()
      modifies backend
      ensures Valid() && r == LiveAt(old(backend.m), key, now) && backend.m == Found(old(backend.m), key, now)
    {
      var muts;
      r, muts := GetLiveRecordOrExpire(key, now, Exists(key));
      assert key !in old(backend.m) ==> old(backend.m) - {key} == old(backend.m);
    }

    /**
      The live records, each under its key; expired ones are dropped on the way without a log entry.
      The clock is read once per key: times holds what it said for each.
    */
    method DumpAllLiveRecords(clock: nat -> i64) returns (out: seq<(Str, Record)>, ghost times: map<Str, i64>)
      requires Valid()
      modifies backend
      ensures Valid() && times.Keys == old(backend.m).Keys && ReadOff(times, clock, |old(backend.m)|)
      ensures backend.m == Swept(old(backend.m), times) && SnapshotStore(out) == backend.m
    {
      var ks := backend.Keys();
      out, times := [], map[];
      ghost var s := backend.m;
      NothingSwept(s);
      for i := 0 to |ks|
        invariant Valid() && s == old(backend.m) && times.Keys == SetOf(ks[..i]) && ReadOff(times, clock, i)
        invariant backend.m == Swept(s, times) && SnapshotStore(out) == LiveAmong(s, times)
      {
        var k := ks[i];
        SetOfSnoc(ks, i);
        assert k in ks && k !in times;
        SweptStep(s, times, k, clock(i));
        OneMoreRead(times, clock, i, k);
        var r := PeekLive(k, clock(i));
        if r.Some? {
          assert (out + [(k, r.value)])[..|out|] == out;
          out := out + [(k, r.value)];
        }
        times := times[k := clock(i)];
      }
      assert ks[..|ks|] == ks;
      AllKeys(ks, s);
      AllSwept(s, times);
    }

    /** The background sweep: a PTTL on every key removes what has expired, with a log entry for each. */
    method CleanupExpiredKeys(clock: nat -> i64) returns (log: seq<Mutation>, ghost times: map<Str, i64>)
      requires Valid()
      modifies backend
      ensures Valid() && times.Keys == old(backend.m).Keys && ReadOff(times, clock, |old(backend.m)|)
      ensures backend.m == Swept(old(backend.m), times) && Replay.Replay(old(backend.m), log) == backend.m
    {
      var ks := backend.Keys();
      log, times := [], map[];
      ghost var s := backend.m;
      NothingSwept(s);
      for i := 0 to |ks|
        invariant Valid() && s == old(backend.m) && times.Keys == SetOf(ks[..i]) && ReadOff(times, clock, i)
        invariant backend.m == Swept(s, times) && Replay.Replay(s, log) == backend.m
      {
        var k := ks[i];
        SetOfSnoc(ks, i);
        assert k in ks && k !in times;
        SweptStep(s, times, k, clock(i));
        OneMoreRead(times, clock, i, k);
        PttlOnlyDrops(backend.m, k, clock(i), backend.limit);
        var _, muts := RunTtl(k, true, clock(i));
        ReplayAppend(s, log, muts);
        log := log + muts;
        times := times[k := clock(i)];
      }
      assert ks[..|ks|] == ks;
      AllKeys(ks, s);
    }
  }

  /** Every time is one of the first n readings of the clock. */
  ghost predicate ReadOff(times: map<Str, i64>, clock: nat -> i64, n: nat) {
    forall k :: k in times ==> exists i: nat :: i < n && times[k] == clock(i)
  }

  lemma OneMoreRead(times: map<Str, i64>, clock: nat -> i64, n: nat, k: Str)
    requires ReadOff(times, clock, n)
    ensures ReadOff(times[k := clock(n)], clock, n + 1)
  {
  }

  lemma AllKeys(ks: seq<Str>, s: Store)
    requires (forall k :: k in ks <==> k in s) && forall i, j :: 0 <= i < j < |ks| ==> ks[i] != ks[j]
    ensures SetOf(ks) == s.Keys && |ks| == |s|
  {
    DistinctSize(ks);
    assert |s| == |s.Keys|;
  }

  lemma {:induction false} DistinctSize(ks: seq<Str>)
    requires forall i, j :: 0 <= i < j < |ks| ==> ks[i] != ks[j]
    ensures |SetOf(ks)| == |ks|
  {
    if ks != [] {
      var n := |ks| - 1;
      DistinctSize(ks[..n]);
      SetOfSnoc(ks, n);
      assert ks[..n + 1] == ks && ks[n] !in SetOf(ks[..n]);
    }
  }

  /** The store after looking each key of times up at its time: what had expired then is gone. */
  ghost function Swept(s: Store, times: map<Str, i64>): Store {
    map k | k in s && !(k in times && Expired(s[k], times[k])) :: s[k]
  }

  /** A record is gone after that exactly if it had an expiry time that was reached when its key was looked up. */
  lemma SweptIff(s: Store, times: map<Str, i64>, k: Str)
    ensures k in Swept(s, times) <==> k in s && !(k in times && 0 <= s[k].expireAt <= times[k])
    ensures k in Swept(s, times) ==> Swept(s, times)[k] == s[k]
  {
  }

  ghost function LiveAmong(s: Store, times: map<Str, i64>): Store {
    map k | k in s && k in times && !Expired(s[k], times[k]) :: s[k]
  }

  lemma NothingSwept(s: Store)
    ensures Swept(s, map[]) == s && LiveAmong(s, map[]) == map[]
  {
  }

  lemma AllSwept(s: Store, times: map<Str, i64>)
    requires times.Keys == s.Keys
    ensures Swept(s, times) == LiveAmong(s, times)
  {
    assert forall k :: k in s ==> k in times.Keys;
  }

  lemma SweptStep(s: Store, times: map<Str, i64>, k: Str, now: i64)
    requires k in s && k !in times
    ensures k in Swept(s, times) && Swept(s, times)[k] == s[k]
    ensures Swept(s, times[k := now]) == Found(Swept(s, times), k, now)
    ensures LiveAmong(s, times[k := now]) ==
            if Expired(s[k], now) then LiveAmong(s, times) else LiveAmong(s, times)[k := s[k]]
  {
  }

  /** From its last look-up on, nobody can see that a dump or a sweep has been there. */
  lemma SweepIsInvisible(s: Store, times: map<Str, i64>, t: int)
    requires forall k :: k in times ==> times[k] <= t
    ensures LiveView(Swept(s, times), t) == LiveView(s, t)
  {
    forall k ensures SameAt(LiveView(Swept(s, times), t), LiveView(s, t), k) {}
    SameEverywhere(LiveView(Swept(s, times), t), LiveView(s, t));
  }

  /** The records of a snapshot as a store. */
  ghost function SnapshotStore(records: seq<(Str, Record)>): Store {
    if records == [] then map[]
    else SnapshotStore(records[..|records| - 1])[records[|records| - 1].0 := records[|records| - 1].1]
  }

  /** Of several records under one key the last one counts. */
  lemma {:induction false} LastRecordCounts(records: seq<(Str, Record)>, i: nat)
    requires i < |records| && forall j :: i < j < |records| ==> records[j].0 != records[i].0
    ensures records[i].0 in SnapshotStore(records) && SnapshotStore(records)[records[i].0] == records[i].1
  {
    var n := |records| - 1;
    if i < n { LastRecordCounts(records[..n], i); }
  }

  lemma PttlOnlyDrops(s: Store, k: Str, now: i64, limit: nat)
    ensures Run(s, Pttl(k), now, limit).after == Found(s, k, now)
    ensures ExactOn(s, Run(s, Pttl(k), now, limit))
  {
    LogIsExact(s, Pttl(k), now, limit);
  }

  // ----- Reasoning about commands on one key -----

  /** Adding to nothing is adding to an empty container. */
  lemma CreateFromEmpty(c: Command, now: int)
    requires Keyed(c) && EmptyContainer(c).Some?
    ensures PlanAbsent(c) == PlanPresent(c, Fresh(EmptyContainer(c).value), now)
    ensures PlanAbsent(c).Planned? && PlanAbsent(c).effect.Write?
  {
    if c.LPush? {
      assert Reversed(c.items) + [] == Reversed(c.items);
    } else if c.RPush? {
      assert [] + c.items == c.items;
    } else if c.SAdd? {
      assert {} + SetOf(c.items) == SetOf(c.items) && SetOf(c.items) - {} == SetOf(c.items);
    } else {
      assert map[][c.field := c.value] == map[c.field := c.value];
    }
  }

  lemma AddsToItsOwnKind(c: Command, r: Record, now: int)
    requires Keyed(c) && EmptyContainer(c).Some?
    ensures var p := PlanPresent(c, r, now);
            if TypeByte(r.value) == TypeByte(EmptyContainer(c).value) then p.Planned? && p.effect.Write? else p.Refused?
  {
  }

  ghost predicate ReadsContainer(c: Command) {
    c.LLen? || c.LIndex? || c.SCard? || c.SIsMember? || c.SMembers? || c.HGet? || c.HLen? || c.HExists? || c.HGetAll?
  }

  method ReadContainer(c: Command, r: Record, now: i64) returns (answer: Answer)
    requires ReadsContainer(c)
    ensures AnswersPlan(answer, PlanPresent(c, r, now))
  {
    if c.LLen? || c.LIndex? {
      if !r.value.ListV? { return Err(WrongType); }
      answer := ReadList(c, r, r.value.list);
    } else if c.SCard? || c.SIsMember? || c.SMembers? {
      if !r.value.SetV? { return Err(WrongType); }
      answer := ReadSet(c, r, r.value.members);
    } else {
      if !r.value.HashV? { return Err(WrongType); }
      answer := ReadHash(c, r, r.value.fields);
    }
  }

  ghost predicate AnswersPlan(answer: Answer, p: Planned) {
    if p.Refused? then answer == Err(WrongType) else p.effect == Keep && answer == Done(p.reply)
  }

  method ReadList(c: Command, ghost r: Record, l: seq<Str>) returns (answer: Answer)
    requires c.LLen? || c.LIndex?
    ensures AnswersPlan(answer, PlanList(c, r, l))
  {
    if c.LLen? { return Done(Int(|l|)); }
    if |l| == 0 { return Done(Nil); }
    var idx: int := c.index;
    if idx < 0 { idx := |l| + idx; }
    if idx < 0 || idx >= |l| { return Done(Nil); }
    return Done(Bulk(l[idx]));
  }

  method ReadSet(c: Command, ghost r: Record, m: set<Str>) returns (answer: Answer)
    requires c.SCard? || c.SIsMember? || c.SMembers?
    ensures AnswersPlan(answer, PlanSet(c, r, m))
  {
    if c.SCard? { return Done(Int(|m|)); }
    if c.SIsMember? { return Done(Int(if c.item in m then 1 else 0)); }
    return Done(List(Sorted(m)));
  }

  method ReadHash(c: Command, ghost r: Record, h: map<Str, Str>) returns (answer: Answer)
    requires c.HGet? || c.HLen? || c.HExists? || c.HGetAll?
    ensures AnswersPlan(answer, PlanHash(c, r, h))
  {
    if c.HGet? { return Done(if c.field in h then Bulk(h[c.field]) else Nil); }
    if c.HLen? { return Done(Int(|h|)); }
    if c.HExists? { return Done(Int(if c.field in h then 1 else 0)); }
    return Done(List(FlatPairs(Sorted(h.Keys), h)));
  }

  // ----- The element loops -----

  lemma OneMoreInFront(x: Str, a: seq<Str>, b: seq<Str>)
    ensures [x] + (a + b) == [x] + a + b
  {
  }

  method PushFront(start: seq<Str>, items: seq<Str>) returns (l: seq<Str>)
    ensures l == Reversed(items) + start
  {
    l := start;
    assert items[..0] == [] && Reversed([]) + start == start;
    for i := 0 to |items|
      invariant l == Reversed(items[..i]) + start
    {
      assert items[..i + 1] == items[..i] + [items[i]];
      ReversedSnoc(items[..i], items[i]);
      OneMoreInFront(items[i], Reversed(items[..i]), start);
      l := [items[i]] + l;
    }
    assert items[..|items|] == items;
  }

  method PushBack(start: seq<Str>, items: seq<Str>) returns (l: seq<Str>)
    ensures l == start + items
  {
    l := start;
    for i := 0 to |items|
      invariant l == start + items[..i]
    {
      l := l + [items[i]];
    }
  }

  lemma SetOfSnoc(items: seq<Str>, i: nat)
    requires i < |items|
    ensures SetOf(items[..i + 1]) == SetOf(items[..i]) + {items[i]}
  {
    assert items[..i + 1] == items[..i] + [items[i]];
  }

  lemma CountNew(a: set<Str>, b: set<Str>, x: Str)
    ensures |(b + {x}) - a| == |b - a| + if x in a + b then 0 else 1
  {
    if x in a + b {
      assert (b + {x}) - a == b - a;
    } else {
      assert (b + {x}) - a == (b - a) + {x};
    }
  }

  lemma CountCommon(a: set<Str>, b: set<Str>, x: Str)
    ensures |a * (b + {x})| == |a * b| + if x in a - b then 1 else 0
  {
    if x in a - b {
      assert a * (b + {x}) == a * b + {x};
    } else {
      assert a * (b + {x}) == a * b;
    }
  }

  /** Inserts the items one by one and counts the new ones. */
  method InsertAll(start: set<Str>, items: seq<Str>) returns (m: set<Str>, added: nat)
    ensures m == start + SetOf(items) && added == |SetOf(items) - start|
  {
    m, added := start, 0;
    ghost var seen: set<Str> := {};
    assert seen - start == {} && SetOf(items[..0]) == seen;
    for i := 0 to |items|
      invariant seen == SetOf(items[..i]) && m == start + seen && added == |seen - start|
    {
      SetOfSnoc(items, i);
      CountNew(start, seen, items[i]);
      if items[i] !in m {
        m, added := m + {items[i]}, added + 1;
      }
      seen := seen + {items[i]};
    }
    assert items[..|items|] == items;
  }

  /** Erases the items one by one and counts how many were there. */
  method EraseMembers(start: set<Str>, items: seq<Str>) returns (m: set<Str>, removed: nat)
    ensures m == start - SetOf(items) && removed == |start * SetOf(items)|
    ensures m == {} <==> start <= SetOf(items)
  {
    m, removed := start, 0;
    ghost var gone: set<Str> := {};
    assert start * gone == {} && SetOf(items[..0]) == gone;
    for i := 0 to |items|
      invariant gone == SetOf(items[..i]) && m == start - gone && removed == |start * gone|
    {
      SetOfSnoc(items, i);
      CountCommon(start, gone, items[i]);
      if items[i] in m {
        m, removed := m - {items[i]}, removed + 1;
      }
      gone := gone + {items[i]};
    }
    assert items[..|items|] == items;
  }

  lemma EraseOne(start: map<Str, Str>, gone: set<Str>, f: Str)
    ensures start - (gone + {f}) == (start - gone) - {f}
    ensures f !in start - gone ==> start - (gone + {f}) == start - gone
    ensures f in start - gone <==> f in start.Keys - gone
  {
  }

  method EraseFields(start: map<Str, Str>, items: seq<Str>) returns (h: map<Str, Str>, deleted: nat)
    ensures h == start - SetOf(items) && deleted == |start.Keys * SetOf(items)|
    ensures |h| == 0 <==> start.Keys <= SetOf(items)
  {
    h, deleted := start, 0;
    ghost var gone: set<Str> := {};
    assert start.Keys * gone == {} && start - gone == start && SetOf(items[..0]) == gone;
    for i := 0 to |items|
      invariant gone == SetOf(items[..i]) && h == start - gone && deleted == |start.Keys * gone|
    {
      SetOfSnoc(items, i);
      CountCommon(start.Keys, gone, items[i]);
      EraseOne(start, gone, items[i]);
      if items[i] in h {
        h, deleted := h - {items[i]}, deleted + 1;
      }
      gone := gone + {items[i]};
    }
    assert items[..|items|] == items;
    EmptyAfter(start, gone);
  }

  lemma EmptyAfter(start: map<Str, Str>, gone: set<Str>)
    ensures |start - gone| == 0 <==> start.Keys <= gone
  {
    var h := start - gone;
    assert h.Keys == start.Keys - gone && |h| == |h.Keys|;
    assert forall k :: k in start.Keys && k !in gone ==> k in h.Keys;
    if start.Keys <= gone { assert h.Keys == {}; }
  }
}
