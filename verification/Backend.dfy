/** The in-memory map with its running estimate of the bytes in use. */
module Backend {
  import opened Bytes
  import opened Model
  import opened Order
  import opened DataValueCodec
  import opened Sums
  import opened Commands

  method EstimateItems(items: seq<Str>) returns (n: nat)
    ensures n == Sizes(items)
  {
    n := 0;
    for i := 0 to |items|
      invariant n + Sizes(items[i..]) == Sizes(items)
    {
      assert items[i..][1..] == items[i + 1..];
      n := n + |items[i]|;
    }
  }

  method EstimateDataValue(v: DataValue) returns (n: nat)
    ensures n == ValueSize(v)
  {
    match v {
      case StringV(s) => n := |s|;
      case ListV(l) => n := EstimateItems(l);
      case SetV(m) => n := EstimateItems(Sorted(m));
      case HashV(m) => n := EstimateItems(FlatPairs(Sorted(m.Keys), m));
    }
    n := 32 + n;
  }

  method EstimateFootprint(key: Str, r: Record) returns (n: nat)
    ensures n == Footprint(key, r)
  {
    n := EstimateDataValue(r.value);
    n := |key| + n + RECORD_OVERHEAD;
  }

  class InMemoryBackend {
    const limit: nat
    var m: Store
    var used: nat
    var bypass: bool

    /** The estimate is exact: it is the sum of the footprints of the records stored. */
    ghost predicate Valid()
      reads this
    {
      used == Used(m)
    }

    constructor (limit: nat)
      ensures Valid() && this.limit == limit && m == map[] && !bypass
    {
      this.limit, m, used, bypass := limit, map[], 0, false;
    }

    method GetRecord(key: Str) returns (r: Option<Record>)
      ensures r == if key in m then Some(m[key]) else None
    {
      r := if key in m then Some(m[key]) else None;
    }

    /** Stores the record unless that would exceed the limit; used never drops below zero on the way. */
    method PutRecord(key: Str, r: Record) returns (ok: bool)
      requires Valid()
      modifies this`m, this`used
      ensures Valid()
      ensures ok <==> bypass || Allowed(old(m)[key := r], limit)
      ensures m == if ok then old(m)[key := r] else old(m)
    {
      var oldFp := 0;
      MapSumPut(m, Footprint, key, r);
      if key in m {
        MapSumRemove(m, Footprint, key);
        oldFp := EstimateFootprint(key, m[key]);
      } else {
        MapSumAbsent(m, Footprint, key);
      }
      var newFp := EstimateFootprint(key, r);
      if !bypass && limit > 0 {
        var projected := used - oldFp + newFp;
        if projected > limit { return false; }
      }
      used := used - oldFp;
      m := m[key := r];
      used := used + newFp;
      ok := true;
    }

    method DelKey(key: Str) returns (removed: bool)
      requires Valid()
      modifies this`m, this`used
      ensures Valid() && m == old(m) - {key} && removed == (key in old(m))
    {
      if key !in m {
        assert m - {key} == m;
        return false;
      }
      MapSumRemove(m, Footprint, key);
      var fp := EstimateFootprint(key, m[key]);
      used := used - fp;
      m := m - {key};
      removed := true;
    }

    method ClearAll()
      modifies this`m, this`used
      ensures Valid() && m == map[]
    {
      m, used := map[], 0;
    }

    /** All keys, in no particular order. */
    method Keys() returns (ks: seq<Str>)
      ensures forall k :: k in ks <==> k in m
      ensures forall i, j :: 0 <= i < j < |ks| ==> ks[i] != ks[j]
    {
      var todo := m.Keys;
      ks := [];
      while todo != {}
        invariant forall k :: k in m <==> k in ks || k in todo
        invariant forall k :: k in ks ==> k !in todo
        invariant forall i, j :: 0 <= i < j < |ks| ==> ks[i] != ks[j]
        decreases |todo|
      {
        var k :| k in todo;
        ks, todo := ks + [k], todo - {k};
      }
    }
  }
}
