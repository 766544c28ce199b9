/**
  What clients rely on: the laws between commands on strings, lists, sets, hashes and expiry times, on any
  store, at any time and under any limit. They speak of answers and of what is visible under a key.
*/
module CommandLaws {
  import opened Bytes
  import opened Model
  import opened Order
  import opened DataValueCodec
  import opened Commands
  import opened Sums
  import opened Replay

  /** The value a client can see under k at time u. */
  function View(s: Store, k: Str, u: int): Option<DataValue> {
    if k in s && (s[k].expireAt < 0 || u < s[k].expireAt) then Some(s[k].value) else None
  }

  ghost function AnswerOf(s: Store, c: Command, t: i64, limit: nat): Answer { Run(s, c, t, limit).answer }

  ghost function StoreAfter(s: Store, c: Command, t: i64, limit: nat): Store { Run(s, c, t, limit).after }

  /** The quota does not refuse the command. */
  ghost predicate Goes(s: Store, c: Command, t: i64, limit: nat) { AnswerOf(s, c, t, limit) != Err(QuotaExceeded) }

  /** From time t on, v is under k, as long as what was there before would have lived; else without end. */
  ghost predicate Becomes(s: Store, s': Store, k: Str, t: int, v: DataValue) {
    forall u :: u >= t ==>
      View(s', k, u) == if View(s, k, t).Some? && View(s, k, u).None? then None else Some(v)
  }

  ghost predicate Gone(s: Store, k: Str) { forall u :: View(s, k, u) == None }

  /** Nothing a client can see from time t on has changed. */
  ghost predicate Unseen(s: Store, s': Store, t: int) {
    forall k, u :: u >= t ==> View(s', k, u) == View(s, k, u)
  }

  // ----- One command on its key -----

  function Effected(s: Store, k: Str, e: Effect): Store {
    match e
    case Keep => s
    case Erase => s - {k}
    case Write(r) => s[k := r]
  }

  lemma CarryDoes(p: Planned, s: Store, before: seq<Mutation>, k: Str, empty: Option<DataValue>, now: i64, limit: nat)
    ensures var o := Carry(p, s, before, k, empty, now, limit);
            o.answer != Err(QuotaExceeded) ==>
              if p.Refused? then o.answer == Err(WrongType) && o.after == s
              else o.answer == Done(p.reply) && o.after == Effected(s, k, p.effect)
  {
    if p.Planned? && p.effect.Write? && empty.Some? && k !in s {
      assert s[k := Fresh(empty.value)][k := p.effect.r] == s[k := p.effect.r];
    }
  }

  /** The outcome of plan p: refused for the type, or carried out. */
  ghost predicate Follows(s: Store, c: Command, t: i64, limit: nat, p: Planned)
    requires Keyed(c)
  {
    var mid := Found(s, c.key, t);
    if p.Refused? then AnswerOf(s, c, t, limit) == Err(WrongType) && StoreAfter(s, c, t, limit) == mid
    else AnswerOf(s, c, t, limit) == Done(p.reply) && StoreAfter(s, c, t, limit) == Effected(mid, c.key, p.effect)
  }

  lemma KeyedFollows(s: Store, c: Command, t: i64, limit: nat)
    requires Keyed(c) && !BadArgs(c) && Goes(s, c, t, limit)
    ensures Follows(s, c, t, limit, Plan(c, LiveAt(s, c.key, t), t))
  {
    var mid := Found(s, c.key, t);
    KeyedIsLive(s, c, t, limit);
    assert LiveAt(s, c.key, t) == if c.key in mid then Some(mid[c.key]) else None;
    CarryDoes(Plan(c, LiveAt(s, c.key, t), t), mid, if mid == s then [] else [DelM(c.key, t)], c.key,
              EmptyContainer(c), t, limit);
  }

  lemma ViewIsLive(s: Store, k: Str, t: int)
    ensures View(s, k, t) == if LiveAt(s, k, t).Some? then Some(LiveAt(s, k, t).value.value) else None
  {
  }

  lemma GoesUntouched(s: Store, c: Command, t: i64, limit: nat, p: Planned, k: Str)
    requires Keyed(c) && c.key != k && Follows(s, c, t, limit, p)
    ensures SameAt(StoreAfter(s, c, t, limit), s, k)
  {
  }

  lemma RefusedUntouched(s: Store, c: Command, t: i64, limit: nat, k: Str)
    requires Keyed(c) && c.key != k && !Goes(s, c, t, limit)
    ensures SameAt(StoreAfter(s, c, t, limit), s, k)
  {
    RefusedIff(s, c, t, limit);
    RefusedLeaves(s, c, t, limit);
  }

  lemma SimpleUntouched(s: Store, c: Command, t: i64, limit: nat, k: Str)
    requires c.DbSize? || c.Keys? || ((c.Set? || c.Del? || BadArgs(c)) && c.key != k)
    ensures SameAt(StoreAfter(s, c, t, limit), s, k)
  {
  }

  /** No command touches another key, not even one that is refused. */
  lemma OtherKeysUntouched(s: Store, c: Command, t: i64, limit: nat, k: Str)
    requires c.DbSize? || c.Keys? || c.key != k
    ensures SameAt(StoreAfter(s, c, t, limit), s, k)
  {
    if !Keyed(c) || BadArgs(c) {
      SimpleUntouched(s, c, t, limit, k);
    } else if Goes(s, c, t, limit) {
      KeyedFollows(s, c, t, limit);
      GoesUntouched(s, c, t, limit, Plan(c, LiveAt(s, c.key, t), t), k);
    } else {
      RefusedUntouched(s, c, t, limit, k);
    }
  }

  predicate Malformed(c: Command) {
    (c.Expire? && c.seconds < 0) || ((c.LPush? || c.RPush? || c.SAdd? || c.SRem? || c.HDel?) && c.items == [])
  }

  /** A negative time to live, or no items at all: that is told, and changes nothing. */
  lemma MalformedIsTold(s: Store, c: Command, t: i64, limit: nat)
    requires Malformed(c)
    ensures AnswerOf(s, c, t, limit) == Err(InvalidArg) && StoreAfter(s, c, t, limit) == s
  {
  }

  /** Every event a command logs carries the time of the command. */
  lemma LogIsStamped(s: Store, c: Command, t: i64, limit: nat)
    ensures forall i :: 0 <= i < |Run(s, c, t, limit).muts| ==> Run(s, c, t, limit).muts[i].ts == t
  {
    if Keyed(c) && !BadArgs(c) {
      KeyedIsLive(s, c, t, limit);
      var mid := Found(s, c.key, t);
      var p := Plan(c, if c.key in mid then Some(mid[c.key]) else None, t);
      CarryIsStamped(p, mid, if mid == s then [] else [DelM(c.key, t)], c.key, EmptyContainer(c), t, limit);
    }
  }

  lemma CarryIsStamped(p: Planned, s: Store, before: seq<Mutation>, k: Str, empty: Option<DataValue>, now: i64,
                       limit: nat)
    requires forall i :: 0 <= i < |before| ==> before[i].ts == now
    ensures var ms := Carry(p, s, before, k, empty, now, limit).muts; forall i :: 0 <= i < |ms| ==> ms[i].ts == now
  {
  }

  predicate Reads(c: Command) {
    || c.Get? || c.Exists? || c.Ttl? || c.Pttl? || c.LLen? || c.LIndex? || c.SCard? || c.SIsMember? || c.SMembers?
    || c.HGet? || c.HLen? || c.HExists? || c.HGetAll?
  }

  /** Reading needs no room. */
  lemma ReadGoes(s: Store, c: Command, t: i64, limit: nat)
    requires Reads(c)
    ensures Goes(s, c, t, limit)
  {
    var mid := Found(s, c.key, t);
    ReadPlans(c, if c.key in mid then Some(mid[c.key]) else None, t);
    RefusedIff(s, c, t, limit);
  }

  lemma ReadPlans(c: Command, r: Option<Record>, now: int)
    requires Reads(c)
    ensures var p := Plan(c, r, now); p.Planned? ==> p.effect.Keep?
  {
  }

  /** What a reading command answers, and that nobody sees a change. */
  lemma ReadFollows(s: Store, c: Command, t: i64, limit: nat)
    requires Reads(c)
    ensures Unseen(s, StoreAfter(s, c, t, limit), t)
    ensures var p := Plan(c, LiveAt(s, c.key, t), t);
            AnswerOf(s, c, t, limit) == if p.Refused? then Err(WrongType) else Done(p.reply)
    ensures View(s, c.key, t) == if LiveAt(s, c.key, t).Some? then Some(LiveAt(s, c.key, t).value.value) else None
  {
    ReadGoes(s, c, t, limit);
    KeyedFollows(s, c, t, limit);
    ReadPlans(c, LiveAt(s, c.key, t), t);
    KeepFollows(s, c, t, limit, Plan(c, LiveAt(s, c.key, t), t));
    FoundUnseen(s, c.key, t);
    ViewIsLive(s, c.key, t);
  }

  lemma KeepFollows(s: Store, c: Command, t: i64, limit: nat, p: Planned)
    requires Keyed(c) && Follows(s, c, t, limit, p) && (p.Planned? ==> p.effect.Keep?)
    ensures StoreAfter(s, c, t, limit) == Found(s, c.key, t)
    ensures AnswerOf(s, c, t, limit) == if p.Refused? then Err(WrongType) else Done(p.reply)
  {
  }

  lemma FoundUnseen(s: Store, k: Str, t: i64)
    ensures Unseen(s, Found(s, k, t), t)
  {
  }

  // ----- Strings and keys -----

  /** After SET the value is there without end, whatever was there before; it says 1 and logs what it did. */
  lemma SetThenSeen(s: Store, k: Str, v: Str, t: i64, limit: nat)
    requires Goes(s, Set(k, v), t, limit)
    ensures AnswerOf(s, Set(k, v), t, limit) == Done(Int(1))
    ensures forall u :: View(StoreAfter(s, Set(k, v), t, limit), k, u) == Some(StringV(v))
  {
  }

  /** SET is refused exactly if the byte count of the store would come out above a limit that is set. */
  lemma SetRefusedIff(s: Store, k: Str, v: Str, t: i64, limit: nat)
    ensures !Goes(s, Set(k, v), t, limit) <==>
            limit > 0 && MapSum(s[k := Record(StringV(v), -1, 0)], Footprint) > limit
    ensures !Goes(s, Set(k, v), t, limit) ==> StoreAfter(s, Set(k, v), t, limit) == s
  {
  }

  /** GET gives the string that is there, Nil for nothing, WrongType for a container; and nobody sees a change. */
  lemma GetSees(s: Store, k: Str, t: i64, limit: nat)
    ensures AnswerOf(s, Get(k), t, limit) ==
            match View(s, k, t)
            case None => Done(Nil)
            case Some(StringV(v)) => Done(Bulk(v))
            case Some(_) => Err(WrongType)
    ensures Unseen(s, StoreAfter(s, Get(k), t, limit), t)
  {
    ReadFollows(s, Get(k), t, limit);
  }

  /** SET then GET, at any later or earlier time. */
  lemma GetAfterSet(s: Store, k: Str, v: Str, t: i64, limit: nat, u: i64, limit': nat)
    requires Goes(s, Set(k, v), t, limit)
    ensures AnswerOf(StoreAfter(s, Set(k, v), t, limit), Get(k), u, limit') == Done(Bulk(v))
  {
    SetThenSeen(s, k, v, t, limit);
    GetSees(StoreAfter(s, Set(k, v), t, limit), k, u, limit');
  }

  /** DEL removes what is there and says whether there was anything stored. */
  lemma DelRemoves(s: Store, k: Str, t: i64, limit: nat, u: i64, limit': nat)
    ensures AnswerOf(s, Del(k), t, limit) == Done(Int(if k in s then 1 else 0))
    ensures var s' := StoreAfter(s, Del(k), t, limit);
            Gone(s', k) && AnswerOf(s', Get(k), u, limit') == Done(Nil)
  {
    GetSees(StoreAfter(s, Del(k), t, limit), k, u, limit');
  }

  lemma ExistsSees(s: Store, k: Str, t: i64, limit: nat)
    ensures AnswerOf(s, Exists(k), t, limit) == Done(Int(if View(s, k, t).Some? then 1 else 0))
    ensures Unseen(s, StoreAfter(s, Exists(k), t, limit), t)
  {
    ReadFollows(s, Exists(k), t, limit);
  }

  /** DBSIZE and KEYS report what is stored; SET adds a key just if it was not there, DEL takes it away. */
  lemma CountsKeys(s: Store, k: Str, v: Str, t: i64, limit: nat)
    ensures AnswerOf(s, DbSize, t, limit) == Done(Int(|s|)) && AnswerOf(s, Keys, t, limit) == Done(KeySet(s.Keys))
    ensures StoreAfter(s, DbSize, t, limit) == s && StoreAfter(s, Keys, t, limit) == s
    ensures Goes(s, Set(k, v), t, limit) ==> StoreAfter(s, Set(k, v), t, limit).Keys == s.Keys + {k}
    ensures StoreAfter(s, Del(k), t, limit).Keys == s.Keys - {k}
  {
  }

  // ----- Expiry -----

  /** EXPIRE with a positive time: the value stays until exactly then. Zero removes it at once. */
  lemma ExpireSets(s: Store, k: Str, seconds: i64, t: i64, limit: nat)
    requires seconds >= 0 && Goes(s, Expire(k, seconds), t, limit)
    requires 0 <= t + seconds * 1_000_000 < 0x8000_0000_0000_0000
    ensures AnswerOf(s, Expire(k, seconds), t, limit) == Done(Int(if View(s, k, t).Some? then 1 else 0))
    ensures var s' := StoreAfter(s, Expire(k, seconds), t, limit);
            if View(s, k, t).None? then Unseen(s, s', t)
            else if seconds == 0 then Gone(s', k)
            else forall u :: View(s', k, u) == if u < t + seconds * 1_000_000 then View(s, k, t) else None
  {
    KeyedFollows(s, Expire(k, seconds), t, limit);
    ViewIsLive(s, k, t);
  }

  /** TTL and PTTL: -2 for nothing, -1 for no end, else the time that is left, rounded down. */
  lemma TtlTells(s: Store, k: Str, t: i64, limit: nat)
    ensures AnswerOf(s, Ttl(k), t, limit) ==
            Done(Int(if View(s, k, t).None? then -2 else if s[k].expireAt < 0 then -1
                     else (s[k].expireAt - t) / 1_000_000))
    ensures AnswerOf(s, Pttl(k), t, limit) ==
            Done(Int(if View(s, k, t).None? then -2 else if s[k].expireAt < 0 then -1
                     else (s[k].expireAt - t) / 1_000))
    ensures Unseen(s, StoreAfter(s, Ttl(k), t, limit), t) && Unseen(s, StoreAfter(s, Pttl(k), t, limit), t)
  {
    ReadFollows(s, Ttl(k), t, limit);
    ReadFollows(s, Pttl(k), t, limit);
  }

  /** EXPIRE then TTL: at time u the seconds that are left of the time set, or -2 when it is over. */
  lemma TtlAfterExpire(s: Store, k: Str, seconds: i64, t: i64, limit: nat, u: i64, limit': nat)
    requires seconds > 0 && Goes(s, Expire(k, seconds), t, limit) && View(s, k, t).Some?
    requires 0 <= t + seconds * 1_000_000 < 0x8000_0000_0000_0000
    ensures var s', left := StoreAfter(s, Expire(k, seconds), t, limit), t + seconds * 1_000_000 - u;
            && AnswerOf(s', Ttl(k), u, limit') == Done(Int(if left > 0 then left / 1_000_000 else -2))
            && AnswerOf(s', Pttl(k), u, limit') == Done(Int(if left > 0 then left / 1_000 else -2))
  {
    ExpireSets(s, k, seconds, t, limit);
    KeyedFollows(s, Expire(k, seconds), t, limit);
    TtlTells(StoreAfter(s, Expire(k, seconds), t, limit), k, u, limit');
  }

  /** PERSIST: the value stays for ever; it says whether there was an end to take away. */
  lemma PersistKeeps(s: Store, k: Str, t: i64, limit: nat, u: i64, limit': nat)
    requires Goes(s, Persist(k), t, limit)
    ensures AnswerOf(s, Persist(k), t, limit) ==
            Done(Int(if View(s, k, t).Some? && AnswerOf(s, Ttl(k), t, limit) != Done(Int(-1)) then 1 else 0))
    ensures var s' := StoreAfter(s, Persist(k), t, limit);
            if View(s, k, t).None? then Unseen(s, s', t)
            else (forall w :: View(s', k, w) == View(s, k, t)) && AnswerOf(s', Ttl(k), u, limit') == Done(Int(-1))
  {
    KeyedFollows(s, Persist(k), t, limit);
    ViewIsLive(s, k, t);
    TtlTells(s, k, t, limit);
    TtlTells(StoreAfter(s, Persist(k), t, limit), k, u, limit');
  }

  // ----- Lists -----

  /** What a list command finds: the items, none if there is nothing; None if there is something else. */
  function ListOf(v: Option<DataValue>): Option<seq<Str>> {
    match v
    case None => Some([])
    case Some(ListV(l)) => Some(l)
    case Some(_) => None
  }

  function Mirror(items: seq<Str>): (r: seq<Str>)
    ensures |r| == |items| && forall i :: 0 <= i < |r| ==> r[i] == items[|items| - 1 - i]
  {
    seq(|items|, i requires 0 <= i < |items| => items[|items| - 1 - i])
  }

  lemma {:induction false} ReversedIsMirror(items: seq<Str>)
    ensures Reversed(items) == Mirror(items)
  {
    if items != [] {
      ReversedIsMirror(items[1..]);
      var a, b := Reversed(items), Mirror(items);
      forall i | 0 <= i < |items| ensures a[i] == b[i] {
        if i < |items| - 1 { assert a[i] == Mirror(items[1..])[i] == items[1..][|items| - 2 - i]; }
      }
    }
  }

  ghost predicate TypeError(s: Store, c: Command, t: i64, limit: nat) {
    AnswerOf(s, c, t, limit) == Err(WrongType) && Unseen(s, StoreAfter(s, c, t, limit), t)
  }

  /** A record that replaces the live one and keeps its time, or is new and has no end. */
  lemma WriteBecomes(s: Store, c: Command, t: i64, limit: nat, reply: Reply, r: Record)
    requires Keyed(c) && Follows(s, c, t, limit, Planned(reply, Write(r)))
    requires r.expireAt == if LiveAt(s, c.key, t).Some? then LiveAt(s, c.key, t).value.expireAt else -1
    ensures AnswerOf(s, c, t, limit) == Done(reply) && Becomes(s, StoreAfter(s, c, t, limit), c.key, t, r.value)
  {
  }

  lemma RefusalIsUnseen(s: Store, c: Command, t: i64, limit: nat)
    requires Keyed(c) && Follows(s, c, t, limit, Planned.Refused)
    ensures TypeError(s, c, t, limit)
  {
    FoundUnseen(s, c.key, t);
  }

  /** The plan of a command that builds on what ListOf, SetAt or HashAt finds. */
  ghost predicate PlansWrite(c: Command, r: Option<Record>, t: int, found: bool, n: int, v: DataValue)
    requires Keyed(c)
  {
    Plan(c, r, t) == if !found then Planned.Refused
                     else Planned(Int(n), Write(if r.Some? then r.value.(value := v) else Fresh(v)))
  }

  /** Its outcome: a type error that nobody sees, or the answer n and the value v. */
  lemma WritesAsPlanned(s: Store, c: Command, t: i64, limit: nat, found: bool, n: int, v: DataValue)
    requires Keyed(c) && !BadArgs(c) && Goes(s, c, t, limit)
    requires PlansWrite(c, LiveAt(s, c.key, t), t, found, n, v)
    ensures if !found then TypeError(s, c, t, limit)
            else AnswerOf(s, c, t, limit) == Done(Int(n)) && Becomes(s, StoreAfter(s, c, t, limit), c.key, t, v)
  {
    KeyedFollows(s, c, t, limit);
    var r := LiveAt(s, c.key, t);
    if found {
      WriteBecomes(s, c, t, limit, Int(n), if r.Some? then r.value.(value := v) else Fresh(v));
    } else {
      RefusalIsUnseen(s, c, t, limit);
    }
  }

  function ValueOf(r: Option<Record>): Option<DataValue> { if r.Some? then Some(r.value.value) else None }

  lemma RPushPlan(k: Str, items: seq<Str>, r: Option<Record>, t: int)
    ensures var l := ListOf(ValueOf(r));
            PlansWrite(RPush(k, items), r, t, l.Some?, if l.Some? then |l.value| + |items| else 0,
                       if l.Some? then ListV(l.value + items) else ListV([]))
  {
    assert [] + items == items;
  }

  lemma LPushPlan(k: Str, items: seq<Str>, r: Option<Record>, t: int)
    ensures var l := ListOf(ValueOf(r));
            PlansWrite(LPush(k, items), r, t, l.Some?, if l.Some? then |l.value| + |items| else 0,
                       if l.Some? then ListV(Mirror(items) + l.value) else ListV([]))
  {
    ReversedIsMirror(items);
    assert Mirror(items) + [] == Mirror(items);
  }

  lemma SAddPlan(k: Str, items: seq<Str>, r: Option<Record>, t: int)
    ensures var m, added := SetAt(ValueOf(r)), set x | x in items;
            PlansWrite(SAdd(k, items), r, t, m.Some?, if m.Some? then |added - m.value| else 0,
                       if m.Some? then SetV(m.value + added) else SetV({}))
  {
    assert SetOf(items) - {} == SetOf(items) && {} + SetOf(items) == SetOf(items);
  }

  lemma HSetPlan(k: Str, f: Str, v: Str, r: Option<Record>, t: int)
    ensures var h := HashAt(ValueOf(r));
            PlansWrite(HSet(k, f, v), r, t, h.Some?, if h.Some? && f in h.value then 0 else 1,
                       if h.Some? then HashV(h.value[f := v]) else HashV(map[]))
  {
  }

  /** RPUSH puts the items at the end, in order; the key keeps the time it has left. */
  lemma RPushAppends(s: Store, k: Str, items: seq<Str>, t: i64, limit: nat)
    requires items != [] && Goes(s, RPush(k, items), t, limit)
    ensures var l, c := ListOf(View(s, k, t)), RPush(k, items);
            if l.None? then TypeError(s, c, t, limit)
            else
              && AnswerOf(s, c, t, limit) == Done(Int(|l.value| + |items|))
              && Becomes(s, StoreAfter(s, c, t, limit), k, t, ListV(l.value + items))
  {
    var l := ListOf(View(s, k, t));
    ViewIsLive(s, k, t);
    RPushPlan(k, items, LiveAt(s, k, t), t);
    WritesAsPlanned(s, RPush(k, items), t, limit, l.Some?, if l.Some? then |l.value| + |items| else 0,
                    if l.Some? then ListV(l.value + items) else ListV([]));
  }

  /** LPUSH puts them in front one by one, so the last one comes first. */
  lemma LPushPrepends(s: Store, k: Str, items: seq<Str>, t: i64, limit: nat)
    requires items != [] && Goes(s, LPush(k, items), t, limit)
    ensures var l, c := ListOf(View(s, k, t)), LPush(k, items);
            if l.None? then TypeError(s, c, t, limit)
            else
              && AnswerOf(s, c, t, limit) == Done(Int(|l.value| + |items|))
              && Becomes(s, StoreAfter(s, c, t, limit), k, t, ListV(Mirror(items) + l.value))
  {
    var l := ListOf(View(s, k, t));
    ViewIsLive(s, k, t);
    LPushPlan(k, items, LiveAt(s, k, t), t);
    WritesAsPlanned(s, LPush(k, items), t, limit, l.Some?, if l.Some? then |l.value| + |items| else 0,
                    if l.Some? then ListV(Mirror(items) + l.value) else ListV([]));
  }

  /** LPOP takes the first item; the key goes with the last one. */
  lemma LPopTakesFirst(s: Store, k: Str, t: i64, limit: nat)
    requires Goes(s, LPop(k), t, limit)
    ensures var l, c, s' := ListOf(View(s, k, t)), LPop(k), StoreAfter(s, LPop(k), t, limit);
            if l.None? then TypeError(s, c, t, limit)
            else if l.value == [] then AnswerOf(s, c, t, limit) == Done(Nil) && Unseen(s, s', t)
            else
              && AnswerOf(s, c, t, limit) == Done(Bulk(l.value[0]))
              && if |l.value| == 1 then Gone(s', k) else Becomes(s, s', k, t, ListV(l.value[1..]))
  {
    KeyedFollows(s, LPop(k), t, limit);
    ViewIsLive(s, k, t);
  }

  /** RPOP takes the last one. */
  lemma RPopTakesLast(s: Store, k: Str, t: i64, limit: nat)
    requires Goes(s, RPop(k), t, limit)
    ensures var l, c, s' := ListOf(View(s, k, t)), RPop(k), StoreAfter(s, RPop(k), t, limit);
            if l.None? then TypeError(s, c, t, limit)
            else if l.value == [] then AnswerOf(s, c, t, limit) == Done(Nil) && Unseen(s, s', t)
            else
              && AnswerOf(s, c, t, limit) == Done(Bulk(l.value[|l.value| - 1]))
              && if |l.value| == 1 then Gone(s', k) else Becomes(s, s', k, t, ListV(l.value[..|l.value| - 1]))
  {
    KeyedFollows(s, RPop(k), t, limit);
    ViewIsLive(s, k, t);
  }

  lemma LLenCounts(s: Store, k: Str, t: i64, limit: nat)
    ensures var l := ListOf(View(s, k, t));
            AnswerOf(s, LLen(k), t, limit) == if l.None? then Err(WrongType) else Done(Int(|l.value|))
    ensures Unseen(s, StoreAfter(s, LLen(k), t, limit), t)
  {
    ReadFollows(s, LLen(k), t, limit);
  }

  /** A negative index counts from the end. */
  lemma LIndexGives(s: Store, k: Str, index: i64, t: i64, limit: nat)
    ensures var l := ListOf(View(s, k, t));
            AnswerOf(s, LIndex(k, index), t, limit) ==
            if l.None? then Err(WrongType)
            else if 0 <= index < |l.value| then Done(Bulk(l.value[index]))
            else if -|l.value| <= index < 0 then Done(Bulk(l.value[|l.value| + index]))
            else Done(Nil)
    ensures Unseen(s, StoreAfter(s, LIndex(k, index), t, limit), t)
  {
    ReadFollows(s, LIndex(k, index), t, limit);
  }

  /** One LPOP after another: the answers, and the store at the end. */
  ghost function Pops(s: Store, k: Str, times: seq<i64>, limit: nat): (seq<Answer>, Store) {
    if times == [] then ([], s)
    else
      var rest := Pops(StoreAfter(s, LPop(k), times[0], limit), k, times[1..], limit);
      ([AnswerOf(s, LPop(k), times[0], limit)] + rest.0, rest.1)
  }

  ghost predicate PopsGo(s: Store, k: Str, times: seq<i64>, limit: nat) {
    times != [] ==>
      && Goes(s, LPop(k), times[0], limit)
      && PopsGo(StoreAfter(s, LPop(k), times[0], limit), k, times[1..], limit)
  }

  predicate Ascending(times: seq<i64>) { forall i, j :: 0 <= i < j < |times| ==> times[i] <= times[j] }

  /** A list is a queue: popping as often as there are items gives them all in order, and the key is gone. */
  lemma {:induction false} PoppingEmptiesList(s: Store, k: Str, items: seq<Str>, times: seq<i64>, limit: nat)
    requires |items| == |times| > 0 && Ascending(times) && PopsGo(s, k, times, limit)
    requires forall u :: u >= times[0] ==> View(s, k, u) == Some(ListV(items))
    ensures |Pops(s, k, times, limit).0| == |items| && Gone(Pops(s, k, times, limit).1, k)
    ensures forall i :: 0 <= i < |items| ==> Pops(s, k, times, limit).0[i] == Done(Bulk(items[i]))
    decreases |items|
  {
    var s', rest := StoreAfter(s, LPop(k), times[0], limit), times[1..];
    LPopTakesFirst(s, k, times[0], limit);
    if |items| == 1 {
      assert rest == [];
    } else {
      assert rest[0] == times[1] >= times[0];
      PoppingEmptiesList(s', k, items[1..], rest, limit);
    }
  }

  /** RPUSH on a key where nothing is, then LPOP as often: the items come back in the order they were given. */
  lemma PushThenPop(s: Store, k: Str, items: seq<Str>, t: i64, times: seq<i64>, limit: nat)
    requires |items| == |times| > 0 && Ascending(times) && t <= times[0] && View(s, k, t) == None
    requires Goes(s, RPush(k, items), t, limit) && PopsGo(StoreAfter(s, RPush(k, items), t, limit), k, times, limit)
    ensures var r := Pops(StoreAfter(s, RPush(k, items), t, limit), k, times, limit);
            |r.0| == |items| && Gone(r.1, k) && forall i :: 0 <= i < |items| ==> r.0[i] == Done(Bulk(items[i]))
  {
    RPushAppends(s, k, items, t, limit);
    assert [] + items == items;
    PoppingEmptiesList(StoreAfter(s, RPush(k, items), t, limit), k, items, times, limit);
  }

  // ----- Sets -----

  function SetAt(v: Option<DataValue>): Option<set<Str>> {
    match v
    case None => Some({})
    case Some(SetV(m)) => Some(m)
    case Some(_) => None
  }

  /** SADD adds the items and counts those that were not there. */
  lemma SAddAdds(s: Store, k: Str, items: seq<Str>, t: i64, limit: nat)
    requires items != [] && Goes(s, SAdd(k, items), t, limit)
    ensures var m, c, new' := SetAt(View(s, k, t)), SAdd(k, items), set x | x in items;
            if m.None? then TypeError(s, c, t, limit)
            else
              && AnswerOf(s, c, t, limit) == Done(Int(|new' - m.value|))
              && Becomes(s, StoreAfter(s, c, t, limit), k, t, SetV(m.value + new'))
  {
    var m, added := SetAt(View(s, k, t)), set x | x in items;
    ViewIsLive(s, k, t);
    SAddPlan(k, items, LiveAt(s, k, t), t);
    WritesAsPlanned(s, SAdd(k, items), t, limit, m.Some?, if m.Some? then |added - m.value| else 0,
                    if m.Some? then SetV(m.value + added) else SetV({}));
  }

  /** SREM takes them out and counts those that were there; the key goes with the last member. */
  lemma SRemRemoves(s: Store, k: Str, items: seq<Str>, t: i64, limit: nat)
    requires items != [] && Goes(s, SRem(k, items), t, limit)
    ensures var m, c, out := SetAt(View(s, k, t)), SRem(k, items), set x | x in items;
            var s' := StoreAfter(s, c, t, limit);
            if m.None? then TypeError(s, c, t, limit)
            else if View(s, k, t).None? then AnswerOf(s, c, t, limit) == Done(Int(0)) && Unseen(s, s', t)
            else
              && AnswerOf(s, c, t, limit) == Done(Int(|m.value * out|))
              && if m.value - out == {} then Gone(s', k) else Becomes(s, s', k, t, SetV(m.value - out))
  {
    KeyedFollows(s, SRem(k, items), t, limit);
    ViewIsLive(s, k, t);
    var m := SetAt(View(s, k, t));
    if m.Some? { EmptyDifference(m.value, SetOf(items)); }
  }

  lemma EmptyDifference<T>(a: set<T>, b: set<T>)
    ensures a - b == {} <==> a <= b
  {
    if a - b == {} {
      forall x | x in a ensures x in b { assert x !in a - b; }
    }
  }

  lemma SCardCounts(s: Store, k: Str, t: i64, limit: nat)
    ensures var m := SetAt(View(s, k, t));
            AnswerOf(s, SCard(k), t, limit) == if m.None? then Err(WrongType) else Done(Int(|m.value|))
    ensures Unseen(s, StoreAfter(s, SCard(k), t, limit), t)
  {
    ReadFollows(s, SCard(k), t, limit);
  }

  lemma SIsMemberTells(s: Store, k: Str, x: Str, t: i64, limit: nat)
    ensures var m := SetAt(View(s, k, t));
            AnswerOf(s, SIsMember(k, x), t, limit) ==
            if m.None? then Err(WrongType) else Done(Int(if x in m.value then 1 else 0))
    ensures Unseen(s, StoreAfter(s, SIsMember(k, x), t, limit), t)
  {
    ReadFollows(s, SIsMember(k, x), t, limit);
  }

  /** SMEMBERS: every member once, in ascending order. */
  lemma SMembersLists(s: Store, k: Str, t: i64, limit: nat) returns (q: seq<Str>)
    ensures var m := SetAt(View(s, k, t));
            if m.None? then AnswerOf(s, SMembers(k), t, limit) == Err(WrongType)
            else AnswerOf(s, SMembers(k), t, limit) == Done(List(q)) && Lists(q, m.value)
    ensures Unseen(s, StoreAfter(s, SMembers(k), t, limit), t)
  {
    SMembersAnswers(s, k, t, limit);
    var m := SetAt(View(s, k, t));
    q := MembersListed(if m.Some? then m.value else {});
  }

  lemma MembersListed(m: set<Str>) returns (q: seq<Str>)
    ensures q == Sorted(m) && Lists(q, m) && (m == {} ==> q == [])
  {
    q := Sorted(m);
    SortedIsSorted(m);
  }

  lemma SMembersAnswers(s: Store, k: Str, t: i64, limit: nat)
    ensures AnswerOf(s, SMembers(k), t, limit) ==
            match View(s, k, t)
            case None => Done(List([]))
            case Some(SetV(m)) => Done(List(Sorted(m)))
            case Some(_) => Err(WrongType)
    ensures Unseen(s, StoreAfter(s, SMembers(k), t, limit), t)
  {
    ReadFollows(s, SMembers(k), t, limit);
    SMembersPlan(k, LiveAt(s, k, t), t);
    if LiveAt(s, k, t).Some? && LiveAt(s, k, t).value.value.SetV? {
      SMembersOfSet(k, LiveAt(s, k, t).value, LiveAt(s, k, t).value.value.members);
    }
  }

  lemma SMembersPlan(k: Str, r: Option<Record>, t: int)
    ensures Plan(SMembers(k), r, t) ==
            if r.None? then Planned(List([]), Keep)
            else if r.value.value.SetV? then PlanSet(SMembers(k), r.value, r.value.value.members)
            else Planned.Refused
  {
  }

  lemma SMembersOfSet(k: Str, r: Record, m: set<Str>)
    ensures PlanSet(SMembers(k), r, m) == Planned(List(Sorted(m)), Keep)
  {
  }

  /** q lists the elements of m in ascending order, each once. */
  ghost predicate Lists(q: seq<Str>, m: set<Str>) {
    StrictlySorted(q) && (forall x :: x in q <==> x in m) && |q| == |m|
  }

  // ----- Hashes -----

  function HashAt(v: Option<DataValue>): Option<map<Str, Str>> {
    match v
    case None => Some(map[])
    case Some(HashV(h)) => Some(h)
    case Some(_) => None
  }

  /** HSET sets the field and says whether it is new. */
  lemma HSetSets(s: Store, k: Str, f: Str, v: Str, t: i64, limit: nat)
    requires Goes(s, HSet(k, f, v), t, limit)
    ensures var h, c := HashAt(View(s, k, t)), HSet(k, f, v);
            if h.None? then TypeError(s, c, t, limit)
            else
              && AnswerOf(s, c, t, limit) == Done(Int(if f in h.value then 0 else 1))
              && Becomes(s, StoreAfter(s, c, t, limit), k, t, HashV(h.value[f := v]))
  {
    var h := HashAt(View(s, k, t));
    ViewIsLive(s, k, t);
    HSetPlan(k, f, v, LiveAt(s, k, t), t);
    WritesAsPlanned(s, HSet(k, f, v), t, limit, h.Some?, if h.Some? && f in h.value then 0 else 1,
                    if h.Some? then HashV(h.value[f := v]) else HashV(map[]));
  }

  /** HDEL takes fields out and counts those that were there; the key goes with the last field. */
  lemma HDelRemoves(s: Store, k: Str, fields: seq<Str>, t: i64, limit: nat)
    requires fields != [] && Goes(s, HDel(k, fields), t, limit)
    ensures var h, c, out := HashAt(View(s, k, t)), HDel(k, fields), set x | x in fields;
            var s' := StoreAfter(s, c, t, limit);
            if h.None? then TypeError(s, c, t, limit)
            else if View(s, k, t).None? then AnswerOf(s, c, t, limit) == Done(Int(0)) && Unseen(s, s', t)
            else
              && AnswerOf(s, c, t, limit) == Done(Int(|h.value.Keys * out|))
              && if h.value.Keys - out == {} then Gone(s', k) else Becomes(s, s', k, t, HashV(h.value - out))
  {
    KeyedFollows(s, HDel(k, fields), t, limit);
    ViewIsLive(s, k, t);
    var h := HashAt(View(s, k, t));
    if h.Some? { EmptyDifference(h.value.Keys, SetOf(fields)); }
  }

  lemma HGetGives(s: Store, k: Str, f: Str, t: i64, limit: nat)
    ensures var h := HashAt(View(s, k, t));
            AnswerOf(s, HGet(k, f), t, limit) ==
            if h.None? then Err(WrongType) else Done(if f in h.value then Bulk(h.value[f]) else Nil)
    ensures Unseen(s, StoreAfter(s, HGet(k, f), t, limit), t)
  {
    ReadFollows(s, HGet(k, f), t, limit);
  }

  lemma HExistsTells(s: Store, k: Str, f: Str, t: i64, limit: nat)
    ensures var h := HashAt(View(s, k, t));
            AnswerOf(s, HExists(k, f), t, limit) ==
            if h.None? then Err(WrongType) else Done(Int(if f in h.value then 1 else 0))
    ensures Unseen(s, StoreAfter(s, HExists(k, f), t, limit), t)
  {
    ReadFollows(s, HExists(k, f), t, limit);
  }

  lemma HLenCounts(s: Store, k: Str, t: i64, limit: nat)
    ensures var h := HashAt(View(s, k, t));
            AnswerOf(s, HLen(k), t, limit) == if h.None? then Err(WrongType) else Done(Int(|h.value|))
    ensures Unseen(s, StoreAfter(s, HLen(k), t, limit), t)
  {
    ReadFollows(s, HLen(k), t, limit);
  }

  /** q alternates the fields, in the order of ks, with their values. */
  ghost predicate Alternates(q: seq<Str>, ks: seq<Str>, h: map<Str, Str>) {
    && |q| == 2 * |ks|
    && forall i :: 0 <= i < |ks| ==> q[2 * i] == ks[i] && ks[i] in h && q[2 * i + 1] == h[ks[i]]
  }

  lemma {:induction false} FlatAlternates(ks: seq<Str>, h: map<Str, Str>)
    requires forall k :: k in ks ==> k in h
    ensures Alternates(FlatPairs(ks, h), ks, h)
  {
    if ks != [] {
      FlatAlternates(ks[1..], h);
      var q, rest := FlatPairs(ks, h), FlatPairs(ks[1..], h);
      forall i | 0 <= i < |ks| ensures q[2 * i] == ks[i] && ks[i] in h && q[2 * i + 1] == h[ks[i]] {
        if i > 0 {
          assert q[2 * i] == rest[2 * (i - 1)] && q[2 * i + 1] == rest[2 * (i - 1) + 1] && ks[i] == ks[1..][i - 1];
        }
      }
    }
  }

  lemma PairsListed(h: map<Str, Str>) returns (q: seq<Str>, ks: seq<Str>)
    ensures q == FlatPairs(Sorted(h.Keys), h) && Lists(ks, h.Keys) && Alternates(q, ks, h)
    ensures h == map[] ==> q == []
  {
    ks := Sorted(h.Keys);
    q := FlatPairs(ks, h);
    SortedIsSorted(h.Keys);
    FlatAlternates(ks, h);
  }

  lemma HGetAllAnswers(s: Store, k: Str, t: i64, limit: nat)
    ensures AnswerOf(s, HGetAll(k), t, limit) ==
            match View(s, k, t)
            case None => Done(List([]))
            case Some(HashV(h)) => Done(List(FlatPairs(Sorted(h.Keys), h)))
            case Some(_) => Err(WrongType)
    ensures Unseen(s, StoreAfter(s, HGetAll(k), t, limit), t)
  {
    ReadFollows(s, HGetAll(k), t, limit);
    HGetAllPlan(k, LiveAt(s, k, t), t);
    if LiveAt(s, k, t).Some? && LiveAt(s, k, t).value.value.HashV? {
      HGetAllOfHash(k, LiveAt(s, k, t).value, LiveAt(s, k, t).value.value.fields);
    }
  }

  lemma HGetAllPlan(k: Str, r: Option<Record>, t: int)
    ensures Plan(HGetAll(k), r, t) ==
            if r.None? then Planned(List([]), Keep)
            else if r.value.value.HashV? then PlanHash(HGetAll(k), r.value, r.value.value.fields)
            else Planned.Refused
  {
  }

  lemma HGetAllOfHash(k: Str, r: Record, h: map<Str, Str>)
    ensures PlanHash(HGetAll(k), r, h) == Planned(List(FlatPairs(Sorted(h.Keys), h)), Keep)
  {
  }

  /** HGETALL: every field followed by its value, the fields in ascending order. */
  lemma HGetAllLists(s: Store, k: Str, t: i64, limit: nat) returns (q: seq<Str>, ks: seq<Str>)
    ensures var h := HashAt(View(s, k, t));
            if h.None? then AnswerOf(s, HGetAll(k), t, limit) == Err(WrongType)
            else
              && AnswerOf(s, HGetAll(k), t, limit) == Done(List(q))
              && Lists(ks, h.value.Keys) && Alternates(q, ks, h.value)
    ensures Unseen(s, StoreAfter(s, HGetAll(k), t, limit), t)
  {
    HGetAllAnswers(s, k, t, limit);
    var h := HashAt(View(s, k, t));
    q, ks := PairsListed(if h.Some? then h.value else map[]);
  }

  // ----- What the quota counts -----

  /** Key, value and a fixed 132 bytes for each record; a string counts its bytes. */
  lemma StringFootprint(k: Str, v: Str, expireAt: i64, version: u64)
    ensures Footprint(k, Record(StringV(v), expireAt, version)) == |k| + |v| + 132
  {
  }

  lemma {:induction false} SizesAppend(a: seq<Str>, b: seq<Str>)
    ensures Sizes(a + b) == Sizes(a) + Sizes(b)
  {
    if a == [] {
      assert a + b == b;
    } else {
      SizesAppend(a[1..], b);
      assert (a + b)[1..] == a[1..] + b;
    }
  }

  /** An item more in a list counts its bytes; so do a member more in a set and a field more in a hash. */
  lemma ListSize(l: seq<Str>, x: Str)
    ensures ValueSize(ListV([])) == 32 && ValueSize(ListV(l + [x])) == ValueSize(ListV(l)) + |x|
  {
    SizesAppend(l, [x]);
    assert [x][1..] == [];
  }

  function OwnSize(k: Str, v: Str): nat { |k| }
  function BothSizes(k: Str, v: Str): nat { |k| + |v| }

  lemma {:induction false} MembersSize(m: set<Str>)
    ensures Sizes(Sorted(m)) == MapSum(Identity(m), OwnSize)
  {
    if m != {} {
      var x := Min(m);
      MembersSize(m - {x});
      MapSumRemove(Identity(m), OwnSize, x);
      assert Identity(m) - {x} == Identity(m - {x}) && Sorted(m)[1..] == Sorted(m - {x});
    }
  }

  lemma CountedMembers(m: set<Str>)
    ensures ValueSize(SetV(m)) == 32 + MapSum(Identity(m), OwnSize) && (m == {} ==> Identity(m) == map[])
  {
    MembersSize(m);
  }

  lemma OneMemberMore(m: set<Str>, x: Str)
    requires x !in m
    ensures MapSum(Identity(m + {x}), OwnSize) == MapSum(Identity(m), OwnSize) + |x|
  {
    MapSumPut(Identity(m), OwnSize, x, x);
    MapSumAbsent(Identity(m), OwnSize, x);
    assert Identity(m + {x}) == Identity(m)[x := x];
  }

  lemma SetSize(m: set<Str>, x: Str)
    requires x !in m
    ensures ValueSize(SetV({})) == 32 && ValueSize(SetV(m + {x})) == ValueSize(SetV(m)) + |x|
  {
    CountedMembers({});
    CountedMembers(m);
    CountedMembers(m + {x});
    OneMemberMore(m, x);
  }

  lemma TwoSizes(k: Str, v: Str, rest: seq<Str>)
    ensures Sizes([k, v] + rest) == |k| + |v| + Sizes(rest)
  {
    SizesAppend([k, v], rest);
    assert [k, v][1..] == [v] && [v][1..] == [];
  }

  lemma {:induction false} PairsSizes(ks: seq<Str>, h: map<Str, Str>)
    requires forall k :: k in ks <==> k in h
    requires forall i, j :: 0 <= i < j < |ks| ==> ks[i] != ks[j]
    ensures Sizes(FlatPairs(ks, h)) == MapSum(h, BothSizes)
  {
    if ks == [] {
      assert h == map[];
    } else {
      var k, h' := ks[0], h - {ks[0]};
      assert ks == [k] + ks[1..];
      PairsSizes(ks[1..], h');
      FlatPairsCong(ks[1..], h, h');
      MapSumRemove(h, BothSizes, k);
      TwoSizes(k, h[k], FlatPairs(ks[1..], h));
    }
  }

  lemma FieldsSize(h: map<Str, Str>)
    ensures ValueSize(HashV(h)) == 32 + MapSum(h, BothSizes)
  {
    SortedIsSorted(h.Keys);
    PairsSizes(Sorted(h.Keys), h);
  }

  lemma HashSize(h: map<Str, Str>, f: Str, v: Str)
    requires f !in h
    ensures ValueSize(HashV(map[])) == 32 && ValueSize(HashV(h[f := v])) == ValueSize(HashV(h)) + |f| + |v|
  {
    FieldsSize(h);
    FieldsSize(h[f := v]);
    FieldsSize(map[]);
    MapSumPut(h, BothSizes, f, v);
    MapSumAbsent(h, BothSizes, f);
  }
}
