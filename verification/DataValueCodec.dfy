/** Binary form of a value together with its expiry time. */
module DataValueCodec {
  import opened Bytes
  import opened Model
  import opened Order
  import opened Sums

  function EncStrs(items: seq<Str>): (b: Str)
  {
    if items == [] then [] else EncStr(items[0]) + EncStrs(items[1..])
  }

  /** Keys and values of m alternating, in the order of ks. */
  function FlatPairs(ks: seq<Str>, m: map<Str, Str>): (items: seq<Str>)
    requires forall k :: k in ks ==> k in m
    ensures |items| == 2 * |ks|
  {
    if ks == [] then [] else [ks[0], m[ks[0]]] + FlatPairs(ks[1..], m)
  }

  function TypeByte(v: DataValue): byte {
    match v
    case StringV(_) => 0
    case ListV(_) => 1
    case SetV(_) => 2
    case HashV(_) => 3
  }

  function Payload(v: DataValue): Str {
    match v
    case StringV(s) => EncStr(s)
    case ListV(l) => LE(|l|, 4) + EncStrs(l)
    case SetV(m) => LE(|m|, 4) + EncStrs(Sorted(m))
    case HashV(m) => LE(|m|, 4) + EncStrs(FlatPairs(Sorted(m.Keys), m))
  }

  /** 'D' 'V', version 1, type, two reserved bytes, expiry, payload length, payload. */
  function EncodeValue(v: DataValue, expireAt: i64): (b: Str)
    ensures |b| == 18 + |Payload(v)|
  {
    [68, 86, 1, TypeByte(v), 0, 0] + LE(expireAt % U64, 8) + LE(|Payload(v)|, 4) + Payload(v)
  }

  /** Reads n strings from the front of b. */
  function StrsFrom(b: Str, n: nat): (r: Option<(seq<Str>, Str)>)
    ensures r.Some? ==> |r.value.0| == n
  {
    if n == 0 then Some(([], b))
    else
      match StrFrom(b)
      case None => None
      case Some((s, rest)) =>
        match StrsFrom(rest, n - 1)
        case None => None
        case Some((ss, rest')) => Some(([s] + ss, rest'))
  }

  /** Inserting key/value pairs left to right; an earlier key wins, as with std::map::emplace. */
  function FromPairs(items: seq<Str>): (m: map<Str, Str>) {
    if |items| < 2 then map[] else FromPairs(items[2..])[items[0] := items[1]]
  }

  function DecodePayload(t: byte, p: Str): Option<DataValue> {
    if t == 0 then
      match StrFrom(p)
      case None => None
      case Some((s, _)) => Some(StringV(s))
    else if t > 3 || |p| < 4 then None
    else
      var n := U32At(p, 0);
      match StrsFrom(p[4..], if t == 3 then 2 * n else n)
      case None => None
      case Some((items, _)) =>
        Some(Container(t, items))
  }

  function Container(t: byte, items: seq<Str>): DataValue {
    if t == 1 then ListV(items) else if t == 2 then SetV(SetOf(items)) else HashV(FromPairs(items))
  }

  function DecodeValue(b: Str): Option<(DataValue, i64)> {
    if |b| < 18 || b[0] != 68 || b[1] != 86 || b[2] != 1 then None
    else
      var n := U32At(b, 14);
      if 18 + n > |b| then None
      else
        match DecodePayload(b[3], b[18..18 + n])
        case None => None
        case Some(v) => Some((v, ToSigned(U64At(b, 6))))
  }

  // ----- Round trip -----

  ghost predicate Short(items: seq<Str>) {
    forall i :: 0 <= i < |items| ==> |items[i]| < U32
  }

  lemma {:induction false} StrsRoundTrip(items: seq<Str>, rest: Str)
    requires Short(items)
    ensures StrsFrom(EncStrs(items) + rest, |items|) == Some((items, rest))
  {
    if items == [] {
      assert EncStrs(items) + rest == rest;
    } else {
      StrsRoundTrip(items[1..], rest);
      StrFromEncStr(items[0], EncStrs(items[1..]) + rest);
      Assoc(EncStr(items[0]), EncStrs(items[1..]), rest);
      assert items == [items[0]] + items[1..];
    }
  }

  /** Every string, and the number of strings, is bounded by the encoded length. */
  lemma {:induction false} EncStrsSize(items: seq<Str>)
    ensures 4 * |items| <= |EncStrs(items)|
    ensures forall i :: 0 <= i < |items| ==> |items[i]| < |EncStrs(items)|
  {
    if items != [] {
      EncStrsSize(items[1..]);
      forall i | 0 <= i < |items| ensures |items[i]| < |EncStrs(items)| {
        if i > 0 { assert items[i] == items[1..][i - 1]; }
      }
    }
  }

  lemma {:induction false} FromFlatPairs(ks: seq<Str>, m: map<Str, Str>)
    requires forall k :: k in ks ==> k in m
    ensures FromPairs(FlatPairs(ks, m)) == map k | k in ks :: m[k]
  {
    if ks != [] {
      FromFlatPairs(ks[1..], m);
      assert FlatPairs(ks, m)[2..] == FlatPairs(ks[1..], m);
    }
  }

  lemma PayloadRoundTrip(v: DataValue)
    requires |Payload(v)| < U32
    ensures DecodePayload(TypeByte(v), Payload(v)) == Some(v)
  {
    match v
    case StringV(s) =>
      Unit(EncStr(s));
      StrFromEncStr(s, []);
    case ListV(l) => ItemsRoundTrip(1, Payload(v), l, |l|);
    case SetV(m) => SetRoundTrip(m);
    case HashV(m) => HashRoundTrip(m);
  }

  lemma SetRoundTrip(m: set<Str>)
    requires |Payload(SetV(m))| < U32
    ensures DecodePayload(2, Payload(SetV(m))) == Some(SetV(m))
  {
    ItemsRoundTrip(2, Payload(SetV(m)), Sorted(m), |m|);
    assert m == SetOf(Sorted(m));
  }

  lemma HashRoundTrip(m: map<Str, Str>)
    requires |Payload(HashV(m))| < U32
    ensures DecodePayload(3, Payload(HashV(m))) == Some(HashV(m))
  {
    var ks := Sorted(m.Keys);
    assert |m| == |m.Keys| == |ks|;
    ItemsRoundTrip(3, Payload(HashV(m)), FlatPairs(ks, m), |m|);
    FromFlatPairs(ks, m);
    assert m == map k | k in ks :: m[k];
  }

  lemma ItemsRoundTrip(t: byte, p: Str, items: seq<Str>, n: nat)
    requires 1 <= t <= 3 && |items| == if t == 3 then 2 * n else n
    requires p == LE(n, 4) + EncStrs(items) && |p| < U32
    ensures DecodePayload(t, p) == Some(Container(t, items))
  {
    EncStrsSize(items);
    U32AtLE(p, 0, n);
    StrsRoundTrip(items, []);
    Unit(EncStrs(items));
    assert p[4..] == EncStrs(items);
  }

  lemma SignedRoundTrip(x: i64)
    ensures ToSigned(x % U64) == x
  {
  }

  /** A header with type t, time pattern e and the length of p is read back field by field. */
  lemma HeaderReadsBack(t: byte, e: nat, p: Str)
    requires e < U64 && |p| < U32
    ensures var b := [68, 86, 1, t, 0, 0] + LE(e, 8) + LE(|p|, 4) + p;
            && |b| == 18 + |p| && b[0] == 68 && b[1] == 86 && b[2] == 1 && b[3] == t
            && U64At(b, 6) == e && U32At(b, 14) == |p| && b[18..18 + |p|] == p
  {
    var h: Str := [68, 86, 1, t, 0, 0];
    var b := h + LE(e, 8) + LE(|p|, 4) + p;
    FourParts(h, LE(e, 8), LE(|p|, 4), p);
    assert b[..6][3] == b[3] && b[..6][0] == b[0] && b[..6][1] == b[1] && b[..6][2] == b[2];
    U64AtLE(b, 6, e);
    U32AtLE(b, 14, |p|);
    assert b[18..18 + |p|] == b[18..];
  }

  lemma ValueRoundTrip(v: DataValue, expireAt: i64)
    requires |Payload(v)| < U32
    ensures DecodeValue(EncodeValue(v, expireAt)) == Some((v, expireAt))
  {
    HeaderReadsBack(TypeByte(v), expireAt % U64, Payload(v));
    SignedRoundTrip(expireAt);
    PayloadRoundTrip(v);
  }

  // ----- Decoding never expands: re-encoding a decoded value takes no more bytes than were read -----

  lemma {:induction false} StrsFromSize(b: Str, n: nat)
    requires StrsFrom(b, n).Some?
    ensures |EncStrs(StrsFrom(b, n).value.0)| + |StrsFrom(b, n).value.1| == |b|
  {
    if n != 0 {
      var (s, rest) := StrFrom(b).value;
      StrsFromSize(rest, n - 1);
      var items := StrsFrom(b, n).value.0;
      assert items[0] == s && items[1..] == StrsFrom(rest, n - 1).value.0;
    }
  }

  function KeyWeight(k: Str, v: Str): nat { 4 + |k| }
  function PairWeight(k: Str, v: Str): nat { 8 + |k| + |v| }

  function Identity(s: set<Str>): map<Str, Str> { map x | x in s :: x }

  lemma {:induction false} SortedSize(s: set<Str>)
    ensures |EncStrs(Sorted(s))| == MapSum(Identity(s), KeyWeight)
  {
    if s != {} {
      var m := Min(s);
      SortedSize(s - {m});
      MapSumRemove(Identity(s), KeyWeight, m);
      assert Identity(s) - {m} == Identity(s - {m});
      assert Sorted(s)[1..] == Sorted(s - {m});
    }
  }

  lemma {:induction false} FlatPairsCong(ks: seq<Str>, m: map<Str, Str>, m': map<Str, Str>)
    requires forall k :: k in ks ==> k in m && k in m' && m[k] == m'[k]
    ensures FlatPairs(ks, m) == FlatPairs(ks, m')
  {
    if ks != [] { FlatPairsCong(ks[1..], m, m'); }
  }

  lemma EncTwo(k: Str, v: Str, rest: seq<Str>)
    ensures |EncStrs([k, v] + rest)| == PairWeight(k, v) + |EncStrs(rest)|
  {
    var items := [k, v] + rest;
    assert items[1..] == [v] + rest && ([v] + rest)[1..] == rest;
  }

  lemma {:induction false} PairsSize(ks: seq<Str>, m: map<Str, Str>)
    requires forall k :: k in ks <==> k in m
    requires forall i, j :: 0 <= i < j < |ks| ==> ks[i] != ks[j]
    ensures |EncStrs(FlatPairs(ks, m))| == MapSum(m, PairWeight)
  {
    if ks == [] {
      assert m == map[];
    } else {
      var k, m' := ks[0], m - {ks[0]};
      assert ks == [k] + ks[1..];
      PairsSize(ks[1..], m');
      FlatPairsCong(ks[1..], m, m');
      MapSumRemove(m, PairWeight, k);
      EncTwo(k, m[k], FlatPairs(ks[1..], m));
    }
  }

  lemma SortedPairsSize(m: map<Str, Str>)
    ensures |EncStrs(FlatPairs(Sorted(m.Keys), m))| == MapSum(m, PairWeight)
  {
    SortedIsSorted(m.Keys);
    PairsSize(Sorted(m.Keys), m);
  }

  function SetOf(items: seq<Str>): set<Str> { set x | x in items }

  /** Putting one entry adds at most its weight. */
  lemma PutAddsAtMost(m: map<Str, Str>, f: (Str, Str) -> nat, k: Str, v: Str)
    ensures MapSum(m[k := v], f) <= MapSum(m, f) + f(k, v)
  {
    MapSumPut(m, f, k, v);
    if k in m { MapSumRemove(m, f, k); } else { MapSumAbsent(m, f, k); }
  }

  lemma {:induction false} SetOfSize(items: seq<Str>)
    ensures MapSum(Identity(SetOf(items)), KeyWeight) <= |EncStrs(items)|
  {
    if items == [] {
      assert Identity(SetOf(items)) == map[];
    } else {
      var k := items[0];
      SetOfSize(items[1..]);
      assert items == [k] + items[1..];
      assert Identity(SetOf(items)) == Identity(SetOf(items[1..]))[k := k];
      PutAddsAtMost(Identity(SetOf(items[1..])), KeyWeight, k, k);
    }
  }

  lemma {:induction false} FromPairsSize(items: seq<Str>)
    ensures MapSum(FromPairs(items), PairWeight) <= |EncStrs(items)|
  {
    if |items| >= 2 {
      FromPairsSize(items[2..]);
      PutAddsAtMost(FromPairs(items[2..]), PairWeight, items[0], items[1]);
      assert items == [items[0], items[1]] + items[2..];
      EncTwo(items[0], items[1], items[2..]);
    }
  }

  lemma PayloadNeverExpands(t: byte, p: Str)
    requires DecodePayload(t, p).Some?
    ensures |Payload(DecodePayload(t, p).value)| <= |p|
  {
    if t != 0 {
      var n := U32At(p, 0);
      var c := if t == 3 then 2 * n else n;
      StrsFromSize(p[4..], c);
      var items := StrsFrom(p[4..], c).value.0;
      if t == 2 {
        SetOfSize(items);
        SortedSize(SetOf(items));
      } else if t == 3 {
        FromPairsSize(items);
        SortedPairsSize(FromPairs(items));
      }
    }
  }

  lemma ValueNeverExpands(b: Str)
    requires DecodeValue(b).Some?
    ensures |EncodeValue(DecodeValue(b).value.0, DecodeValue(b).value.1)| <= |b|
  {
    PayloadNeverExpands(b[3], b[18..18 + U32At(b, 14)]);
  }

  // ----- The codec as it runs -----

  method AppendStrings(buf: Str, items: seq<Str>) returns (out: Str)
    ensures out == buf + EncStrs(items)
  {
    out := buf;
    for i := 0 to |items|
      invariant out + EncStrs(items[i..]) == buf + EncStrs(items)
    {
      assert items[i..][1..] == items[i + 1..];
      Assoc(out, EncStr(items[i]), EncStrs(items[i + 1..]));
      out := AppendString(out, items[i]);
    }
    Unit(out);
  }

  /** A count followed by that many strings. */
  method AppendCounted(n: nat, items: seq<Str>) returns (out: Str)
    ensures out == LE(n, 4) + EncStrs(items)
  {
    out := AppendLE([], n, 4);
    Unit(LE(n, 4));
    out := AppendStrings(out, items);
  }

  method EncodePayload(v: DataValue) returns (payload: Str)
    ensures payload == Payload(v)
  {
    match v
    case StringV(s) =>
      payload := AppendString([], s);
      Unit(EncStr(s));
    case ListV(l) =>
      payload := AppendCounted(|l|, l);
    case SetV(m) =>
      payload := AppendCounted(|m|, Sorted(m));
    case HashV(m) =>
      payload := AppendCounted(|m|, FlatPairs(Sorted(m.Keys), m));
  }

  method Encode(v: DataValue, expireAt: i64) returns (out: Str)
    ensures out == EncodeValue(v, expireAt)
  {
    var payload := EncodePayload(v);
    out := [68, 86, 1, TypeByte(v), 0, 0];
    out := AppendLE(out, expireAt % U64, 8);
    out := AppendLE(out, |payload|, 4);
    out := out + payload;
  }

  lemma {:induction false} StrsFromSnoc(b: Str, n: nat)
    requires StrsFrom(b, n).Some?
    ensures var (items, rest) := StrsFrom(b, n).value;
            StrsFrom(b, n + 1) == match StrFrom(rest)
                                  case None => None
                                  case Some((s, rest')) => Some((items + [s], rest'))
  {
    if n == 0 {
      assert StrsFrom(b, 0) == Some(([], b));
      if StrFrom(b).Some? {
        var (s, rest) := StrFrom(b).value;
        assert StrsFrom(rest, 0) == Some(([], rest));
        assert [s] + [] == [] + [s];
      }
    } else {
      var (s, rest) := StrFrom(b).value;
      StrsFromSnoc(rest, n - 1);
      var (items, rest') := StrsFrom(rest, n - 1).value;
      if StrFrom(rest').Some? {
        assert [s] + (items + [StrFrom(rest').value.0]) == [s] + items + [StrFrom(rest').value.0];
      }
    }
  }

  /** Once n strings cannot be read, more cannot either. */
  lemma {:induction false} StrsFromFails(b: Str, n: nat, more: nat)
    requires StrsFrom(b, n).None? && n <= more
    ensures StrsFrom(b, more).None?
  {
    if n != 0 && StrFrom(b).Some? {
      StrsFromFails(StrFrom(b).value.1, n - 1, more - 1);
    }
  }

  /** The loop shared by the container kinds: reads n strings one after the other. */
  method ReadStrings(p: Str, off: nat, n: nat) returns (ok: bool, items: seq<Str>)
    requires off <= |p|
    ensures ok <==> StrsFrom(p[off..], n).Some?
    ensures ok ==> items == StrsFrom(p[off..], n).value.0
  {
    var poff: nat := off;
    items, ok := [], true;
    for i := 0 to n
      invariant poff <= |p|
      invariant StrsFrom(p[off..], i) == Some((items, p[poff..]))
    {
      var s, next;
      StrsFromSnoc(p[off..], i);
      ok, s, next := ReadString(p, poff);
      if !ok {
        StrsFromFails(p[off..], i + 1, n);
        return;
      }
      items, poff := items + [s], next;
    }
    ok := true;
  }

  lemma {:induction false} FromPairsSnoc(items: seq<Str>, k: Str, v: Str)
    requires |items| % 2 == 0
    ensures var m := FromPairs(items);
            FromPairs(items + [k, v]) == if k in m then m else m[k := v]
  {
    if items == [] {
      assert FromPairs([k, v][2..]) == map[];
    } else {
      FromPairsSnoc(items[2..], k, v);
      assert (items + [k, v])[2..] == items[2..] + [k, v];
    }
  }

  /** std::map::emplace over the pairs in reading order: a key already present keeps its value. */
  method EmplacePairs(items: seq<Str>) returns (m: map<Str, Str>)
    requires |items| % 2 == 0
    ensures m == FromPairs(items)
  {
    m := map[];
    var i := 0;
    while i < |items|
      invariant 0 <= i <= |items| && i % 2 == 0
      invariant m == FromPairs(items[..i])
    {
      FromPairsSnoc(items[..i], items[i], items[i + 1]);
      assert items[..i] + [items[i], items[i + 1]] == items[..i + 2];
      if items[i] !in m {
        m := m[items[i] := items[i + 1]];
      }
      i := i + 2;
    }
    assert items[..i] == items;
  }

  method Decode(data: Str) returns (r: Option<(DataValue, i64)>)
    ensures r == DecodeValue(data)
  {
    r := None;
    if |data| < 6 || data[0] != 68 || data[1] != 86 || data[2] != 1 { return; }
    var ok, exp, off := ReadLE(data, 6, 8);
    if !ok { return; }
    var n;
    ok, n, off := ReadLE(data, off, 4);
    if !ok || off + n > |data| { return; }
    assert exp == U64At(data, 6) && n == U32At(data, 14);
    var p := data[18..18 + n];
    var v := DecodeBody(data[3], p);
    if v.Some? {
      r := Some((v.value, ToSigned(exp)));
    }
  }

  method DecodeBody(t: byte, p: Str) returns (r: Option<DataValue>)
    ensures r == DecodePayload(t, p)
  {
    r := None;
    if t == 0 {
      assert p[0..] == p;
      var ok, s, _ := ReadString(p, 0);
      return if ok then Some(StringV(s)) else None;
    }
    if t > 3 { return; }
    var ok, n, off := ReadLE(p, 0, 4);
    if !ok { return; }
    assert n == U32At(p, 0);
    var items;
    ok, items := ReadStrings(p, 4, if t == 3 then 2 * n else n);
    if ok {
      var v := BuildContainer(t, items);
      r := Some(v);
    }
  }

  method BuildContainer(t: byte, items: seq<Str>) returns (v: DataValue)
    requires 1 <= t <= 3 && (t == 3 ==> |items| % 2 == 0)
    ensures v == Container(t, items)
  {
    if t == 1 {
      v := ListV(items);
    } else if t == 2 {
      var members := {};
      for i := 0 to |items|
        invariant members == SetOf(items[..i])
      {
        assert items[..i + 1] == items[..i] + [items[i]];
        members := members + {items[i]};
      }
      assert items[..|items|] == items;
      v := SetV(members);
    } else {
      var m := EmplacePairs(items);
      v := HashV(m);
    }
  }
}
