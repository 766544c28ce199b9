/**
  What every storage command means, on the level of one key.

  Plan says what a command does to the live record under its key; Run is the whole command on the
  physical map, which may still hold expired records, under a byte quota.
*/
module Commands {
  import opened Bytes
  import opened Model
  import opened Order
  import opened DataValueCodec
  import opened Sums

  type Store = map<Str, Record>

  predicate Expired(r: Record, now: int) {
    r.expireAt >= 0 && now >= r.expireAt
  }

  /** The record under k, if there is one and it has not expired. */
  function LiveAt(s: Store, k: Str, now: int): Option<Record> {
    if k in s && !Expired(s[k], now) then Some(s[k]) else None
  }

  // ----- Quota -----

  /** Half the size of the record object itself: 200 bytes with libstdc++ on x86-64. */
  const RECORD_OVERHEAD: nat := 100

  function Sizes(items: seq<Str>): nat {
    if items == [] then 0 else |items[0]| + Sizes(items[1..])
  }

  function ValueSize(v: DataValue): nat {
    32 + match v
         case StringV(s) => |s|
         case ListV(l) => Sizes(l)
         case SetV(m) => Sizes(Sorted(m))
         case HashV(m) => Sizes(FlatPairs(Sorted(m.Keys), m))
  }

  function Footprint(k: Str, r: Record): nat {
    |k| + ValueSize(r.value) + RECORD_OVERHEAD
  }

  ghost function Used(s: Store): nat {
    MapSum(s, Footprint)
  }

  /** A put is allowed if the store after it is within the limit; limit 0 means no limit. */
  ghost predicate Allowed(after: Store, limit: nat) {
    limit == 0 || Used(after) <= limit
  }

  // ----- Commands -----

  datatype Command =
    | Set(key: Str, value: Str)
    | Del(key: Str)
    | DbSize
    | Keys
    | Get(key: Str)
    | Exists(key: Str)
    | Expire(key: Str, seconds: i64)
    | Persist(key: Str)
    | Ttl(key: Str)
    | Pttl(key: Str)
    | LPush(key: Str, items: seq<Str>)
    | RPush(key: Str, items: seq<Str>)
    | LPop(key: Str)
    | RPop(key: Str)
    | LLen(key: Str)
    | LIndex(key: Str, index: i64)
    | SAdd(key: Str, items: seq<Str>)
    | SRem(key: Str, items: seq<Str>)
    | SCard(key: Str)
    | SIsMember(key: Str, item: Str)
    | SMembers(key: Str)
    | HSet(key: Str, field: Str, value: Str)
    | HGet(key: Str, field: Str)
    | HDel(key: Str, items: seq<Str>)
    | HLen(key: Str)
    | HExists(key: Str, field: Str)
    | HGetAll(key: Str)

  datatype Reply = Nil | Int(i: int) | Bulk(s: Str) | List(items: seq<Str>) | KeySet(keys: set<Str>)

  datatype Status = WrongType | InvalidArg | QuotaExceeded

  datatype Answer = Done(reply: Reply) | Err(status: Status)

  datatype Effect = Keep | Write(r: Record) | Erase

  datatype Planned = Planned(reply: Reply, effect: Effect) | Refused

  /** Commands that are rejected before the store is looked at. */
  predicate BadArgs(c: Command) {
    || (c.Expire? && c.seconds < 0)
    || ((c.LPush? || c.RPush? || c.SAdd? || c.SRem? || c.HDel?) && c.items == [])
  }

  /** Commands whose meaning depends only on the live record under their key. */
  predicate Keyed(c: Command) {
    !c.Set? && !c.Del? && !c.DbSize? && !c.Keys?
  }

  function Fresh(v: DataValue): Record { Record(v, -1, 0) }

  /** The empty container a creating command starts from. */
  function EmptyContainer(c: Command): Option<DataValue> {
    if c.LPush? || c.RPush? then Some(ListV([]))
    else if c.SAdd? then Some(SetV({}))
    else if c.HSet? then Some(HashV(map[]))
    else None
  }

  function Reversed(items: seq<Str>): (r: seq<Str>)
    ensures |r| == |items|
  {
    if items == [] then [] else Reversed(items[1..]) + [items[0]]
  }

  /** A container after removing elements: an emptied container disappears with its key. */
  function Shrink(r: Record, v: DataValue, isEmpty: bool): Effect {
    if isEmpty then Erase else Write(r.(value := v))
  }

  /** What c does to the live record r under its key. */
  function Plan(c: Command, r: Option<Record>, now: int): Planned
    requires Keyed(c)
  {
    match r
    case None => PlanAbsent(c)
    case Some(r) => PlanPresent(c, r, now)
  }

  function PlanAbsent(c: Command): Planned
    requires Keyed(c)
  {
    if c.LPush? then Planned(Int(|c.items|), Write(Fresh(ListV(Reversed(c.items)))))
    else if c.RPush? then Planned(Int(|c.items|), Write(Fresh(ListV(c.items))))
    else if c.SAdd? then Planned(Int(|SetOf(c.items)|), Write(Fresh(SetV(SetOf(c.items)))))
    else if c.HSet? then Planned(Int(1), Write(Fresh(HashV(map[c.field := c.value]))))
    else if c.Ttl? || c.Pttl? then Planned(Int(-2), Keep)
    else if c.SMembers? || c.HGetAll? then Planned(List([]), Keep)
    else if c.Get? || c.LPop? || c.RPop? || c.LIndex? || c.HGet? then Planned(Nil, Keep)
    else Planned(Int(0), Keep)
  }

  function PlanPresent(c: Command, r: Record, now: int): Planned
    requires Keyed(c)
  {
    if c.Get? then
      if r.value.StringV? then Planned(Bulk(r.value.str), Keep) else Refused
    else if c.Exists? then Planned(Int(1), Keep)
    else if c.Expire? then
      Planned(Int(1), if c.seconds == 0 then Erase else Write(r.(expireAt := Wrap64(now + c.seconds * 1_000_000))))
    else if c.Persist? then Planned(Int(if r.expireAt >= 0 then 1 else 0), Write(r.(expireAt := -1)))
    else if c.Ttl? then Planned(Int(if r.expireAt < 0 then -1 else (r.expireAt - now) / 1_000_000), Keep)
    else if c.Pttl? then Planned(Int(if r.expireAt < 0 then -1 else (r.expireAt - now) / 1_000), Keep)
    else
      match r.value
      case StringV(_) => Refused
      case ListV(l) => PlanList(c, r, l)
      case SetV(m) => PlanSet(c, r, m)
      case HashV(h) => PlanHash(c, r, h)
  }

  function PlanList(c: Command, r: Record, l: seq<Str>): Planned {
    if c.LPush? then Planned(Int(|c.items| + |l|), Write(r.(value := ListV(Reversed(c.items) + l))))
    else if c.RPush? then Planned(Int(|l| + |c.items|), Write(r.(value := ListV(l + c.items))))
    else if c.LPop? then
      if l == [] then Planned(Nil, Keep) else Planned(Bulk(l[0]), Shrink(r, ListV(l[1..]), |l| == 1))
    else if c.RPop? then
      if l == [] then Planned(Nil, Keep)
      else Planned(Bulk(l[|l| - 1]), Shrink(r, ListV(l[..|l| - 1]), |l| == 1))
    else if c.LLen? then Planned(Int(|l|), Keep)
    else if c.LIndex? then
      var at := if c.index < 0 then |l| + c.index else c.index;
      Planned(if 0 <= at < |l| then Bulk(l[at]) else Nil, Keep)
    else Refused
  }

  function PlanSet(c: Command, r: Record, m: set<Str>): Planned {
    if c.SAdd? then Planned(Int(|SetOf(c.items) - m|), Write(r.(value := SetV(m + SetOf(c.items)))))
    else if c.SRem? then
      Planned(Int(|m * SetOf(c.items)|), Shrink(r, SetV(m - SetOf(c.items)), m <= SetOf(c.items)))
    else if c.SCard? then Planned(Int(|m|), Keep)
    else if c.SIsMember? then Planned(Int(if c.item in m then 1 else 0), Keep)
    else if c.SMembers? then Planned(List(Sorted(m)), Keep)
    else Refused
  }

  function PlanHash(c: Command, r: Record, h: map<Str, Str>): Planned {
    if c.HSet? then Planned(Int(if c.field in h then 0 else 1), Write(r.(value := HashV(h[c.field := c.value]))))
    else if c.HGet? then Planned(if c.field in h then Bulk(h[c.field]) else Nil, Keep)
    else if c.HDel? then
      Planned(Int(|h.Keys * SetOf(c.items)|), Shrink(r, HashV(h - SetOf(c.items)), h.Keys <= SetOf(c.items)))
    else if c.HLen? then Planned(Int(|h|), Keep)
    else if c.HExists? then Planned(Int(if c.field in h then 1 else 0), Keep)
    else if c.HGetAll? then Planned(List(FlatPairs(Sorted(h.Keys), h)), Keep)
    else Refused
  }

  // ----- A command on the physical store -----

  datatype Outcome = Outcome(answer: Answer, muts: seq<Mutation>, after: Store)

  function PutM(k: Str, r: Record, now: i64): Mutation { Mutation(PUT, k, Some(r), now) }
  function DelM(k: Str, now: i64): Mutation { Mutation(DEL, k, None, now) }

  ghost function Run(s: Store, c: Command, now: i64, limit: nat): Outcome {
    if c.DbSize? then Outcome(Done(Int(|s|)), [], s)
    else if c.Keys? then Outcome(Done(KeySet(s.Keys)), [], s)
    else if c.Set? then RunWrite(s, [], c.key, Fresh(StringV(c.value)), Int(1), now, limit)
    else if c.Del? then
      if c.key in s then Outcome(Done(Int(1)), [DelM(c.key, now)], s - {c.key}) else Outcome(Done(Int(0)), [], s)
    else RunKeyed(s, c, now, limit)
  }

  /** Overwrites the record under k, or reports that the quota forbids it. */
  ghost function RunWrite(s: Store, before: seq<Mutation>, k: Str, r: Record, reply: Reply, now: i64,
                          limit: nat): Outcome
  {
    if Allowed(s[k := r], limit) then Outcome(Done(reply), before + [PutM(k, r, now)], s[k := r])
    else Outcome(Err(QuotaExceeded), [], s)
  }

  /** An expired record is removed first, and the removal is logged. */
  ghost function RunKeyed(s: Store, c: Command, now: i64, limit: nat): Outcome
    requires Keyed(c)
  {
    if BadArgs(c) then Outcome(Err(InvalidArg), [], s)
    else if c.key in s && Expired(s[c.key], now) then RunLive(s - {c.key}, [DelM(c.key, now)], c, now, limit)
    else RunLive(s, [], c, now, limit)
  }

  /** The command once the record under its key, if any, is known to be live. */
  ghost function RunLive(s: Store, before: seq<Mutation>, c: Command, now: i64, limit: nat): Outcome
    requires Keyed(c)
  {
    var k := c.key;
    Carry(Plan(c, if k in s then Some(s[k]) else None, now), s, before, k, EmptyContainer(c), now, limit)
  }

  /** Carries plan p out on key k; empty is what a container command starts a new key with. */
  ghost function Carry(p: Planned, s: Store, before: seq<Mutation>, k: Str, empty: Option<DataValue>, now: i64,
                       limit: nat): Outcome
  {
    match p
    case Refused => Outcome(Err(WrongType), [], s)
    case Planned(reply, Keep) => Outcome(Done(reply), before, s)
    case Planned(reply, Erase) => Outcome(Done(reply), before + [DelM(k, now)], s - {k})
    case Planned(reply, Write(r)) =>
      if k in s || empty.None? then RunWrite(s, before, k, r, reply, now, limit)
      else
        // A new container is stored empty first, then again with its contents.
        var e := Fresh(empty.value);
        if !Allowed(s[k := e], limit) then Outcome(Err(QuotaExceeded), [], s)
        else RunWrite(s[k := e], before + [PutM(k, e, now)], k, r, reply, now, limit)
  }
}
