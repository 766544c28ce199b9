/** The bytes of the log and the snapshot, spelled out. */
module FileFormats {
  import opened Bytes
  import opened Model
  import opened Order
  import opened DataValueCodec
  import opened RecordCodec
  import opened Framing
  import opened WalCodec
  import opened Snapshot

  /** Byte i of a number is its i-th digit in base 256, the lowest first. */
  lemma {:induction false} LittleEndian(v: nat, n: nat, i: nat)
    requires i < n
    ensures LE(v, n)[i] == (v / Pow256(i)) % 256
    decreases n
  {
    if i > 0 {
      LittleEndian(v / 256, n - 1, i - 1);
      DivideTwice(v, Pow256(i - 1));
    }
  }

  lemma DivideTwice(v: nat, p: nat)
    requires p > 0
    ensures v / 256 / p == v / (256 * p)
  {
    var q, r := v / (256 * p), v % (256 * p);
    var a, b := r / 256, r % 256;
    assert v == (256 * p) * q + r && v == 256 * (p * q + a) + b;
    assert v / 256 == p * q + a && a < p;
    DivideSum(p, q, a);
  }

  lemma TimesMonotone(p: nat, a: int, b: int)
    requires a <= b
    ensures p * a <= p * b
  {
  }

  lemma DivideSum(p: nat, q: nat, a: nat)
    requires p > 0 && a < p
    ensures (p * q + a) / p == q
  {
    var d := (p * q + a) / p;
    if d < q { TimesMonotone(p, d + 1, q); }
    if d > q { TimesMonotone(p, q + 1, d); }
  }

  /** Numbers below 256. */
  lemma SmallNumber(v: byte)
    ensures LE(v, 4) == [v, 0, 0, 0] && LE(v, 8) == [v, 0, 0, 0, 0, 0, 0, 0]
  {
    assert v / 256 == 0 && LE(0, 1) == [0] && LE(0, 2) == [0] + LE(0, 1) && LE(0, 3) == [0] + LE(0, 2);
    assert LE(0, 4) == [0] + LE(0, 3) && LE(0, 5) == [0] + LE(0, 4);
    assert LE(0, 6) == [0] + LE(0, 5) && LE(0, 7) == [0] + LE(0, 6);
  }

  /** Minus one, the time of a record that does not expire. */
  lemma MinusOne()
    ensures LE(-1 % U64, 8) == [255, 255, 255, 255, 255, 255, 255, 255]
  {
    assert -1 % U64 == 0xFFFF_FFFF_FFFF_FFFF;
    assert LE(0xFF, 1) == [255] && LE(0xFFFF, 2) == [255] + LE(0xFF, 1) && LE(0xFF_FFFF, 3) == [255] + LE(0xFFFF, 2);
    assert LE(0xFFFF_FFFF, 4) == [255] + LE(0xFF_FFFF, 3) && LE(0xFF_FFFF_FFFF, 5) == [255] + LE(0xFFFF_FFFF, 4);
    assert LE(0xFFFF_FFFF_FFFF, 6) == [255] + LE(0xFF_FFFF_FFFF, 5);
    assert LE(0xFF_FFFF_FFFF_FFFF, 7) == [255] + LE(0xFFFF_FFFF_FFFF, 6);
  }

  const NEVER: Str := [255, 255, 255, 255, 255, 255, 255, 255]

  /** A string value without an expiry time: kind 0, the time, the payload's length, the payload. */
  lemma StringBytes(x: byte)
    ensures EncodeValue(StringV([x]), -1) == [68, 86, 1, 0, 0, 0] + NEVER + [5, 0, 0, 0] + ([1, 0, 0, 0] + [x])
  {
    MinusOne();
    SmallNumber(1);
    SmallNumber(5);
  }

  lemma OneString(x: Str)
    ensures EncStrs([x]) == EncStr(x)
  {
    var one := [x];
    assert one[1..] == [];
    assert EncStrs(one) == EncStr(x) + EncStrs([]);
    Unit(EncStr(x));
  }

  lemma OnlyMember(x: Str)
    ensures Sorted({x}) == [x]
  {
    var q := Sorted({x});
    assert |q| == 1 && q[0] in q;
  }

  /** A list of one: kind 1, a count, then each string behind its length. */
  lemma ListBytes(x: byte)
    ensures EncodeValue(ListV([[x]]), -1) ==
            [68, 86, 1, 1, 0, 0] + NEVER + [9, 0, 0, 0] + ([1, 0, 0, 0] + ([1, 0, 0, 0] + [x]))
  {
    MinusOne();
    SmallNumber(1);
    SmallNumber(9);
    OneString([x]);
  }

  /** A set of one: kind 2. */
  lemma SetBytes(x: byte)
    ensures EncodeValue(SetV({[x]}), -1) ==
            [68, 86, 1, 2, 0, 0] + NEVER + [9, 0, 0, 0] + ([1, 0, 0, 0] + ([1, 0, 0, 0] + [x]))
  {
    MinusOne();
    SmallNumber(1);
    SmallNumber(9);
    OneString([x]);
    OnlyMember([x]);
  }

  lemma OnePair(m: map<Str, Str>, x: Str, y: Str)
    requires m == map[x := y]
    ensures |m| == 1 && EncStrs(FlatPairs(Sorted(m.Keys), m)) == EncStr(x) + EncStr(y)
  {
    OnlyMember(x);
    assert m.Keys == {x} && |m| == |m.Keys|;
    var ks := [x];
    assert ks[1..] == [] && FlatPairs([], m) == [];
    var flat := FlatPairs(ks, m);
    assert flat == [x, y] && flat[1..] == [y];
    OneString(y);
  }

  /** A hash of one: kind 3, a count of fields, then field and value. */
  lemma HashBytes(x: byte, y: byte)
    ensures EncodeValue(HashV(map[[x] := [y]]), -1) ==
            [68, 86, 1, 3, 0, 0] + NEVER + [14, 0, 0, 0] +
            ([1, 0, 0, 0] + (([1, 0, 0, 0] + [x]) + ([1, 0, 0, 0] + [y])))
  {
    MinusOne();
    SmallNumber(1);
    SmallNumber(14);
    OnePair(map[[x] := [y]], [x], [y]);
  }

  /** A record: its version, the value's length, the value. */
  lemma RecordBytes(x: byte)
    ensures EncodeRecord(Record(StringV([x]), -1, 0)) ==
            [82, 67, 1] + [0, 0, 0, 0, 0, 0, 0, 0] + [23, 0, 0, 0] + EncodeValue(StringV([x]), -1)
  {
    SmallNumber(0);
    SmallNumber(1);
    SmallNumber(23);
  }

  /** SET k v at time t in the log: kind 0, key and record each behind their length. */
  lemma PutBytes(k: byte, v: byte, t: byte)
    ensures var r := Record(StringV([v]), -1, 0);
            EncodeMutation(Mutation(PUT, [k], Some(r), t)) ==
            [87, 50, 1] + [t, 0, 0, 0, 0, 0, 0, 0] + [0] + ([1, 0, 0, 0] + [k]) + ([38, 0, 0, 0] + EncodeRecord(r))
  {
    SmallNumber(t);
    SmallNumber(1);
    SmallNumber(38);
    assert t % U64 == t && |Payload(StringV([v]))| == 5;
  }

  /** DEL k is kind 1 and FLUSHALL kind 2, both without a record. */
  lemma DelAndClearBytes(k: byte, t: byte)
    ensures EncodeMutation(Mutation(DEL, [k], None, t)) ==
            [87, 50, 1] + [t, 0, 0, 0, 0, 0, 0, 0] + [1] + ([1, 0, 0, 0] + [k]) + ([0, 0, 0, 0] + [])
    ensures EncodeMutation(Mutation(CLEAR, [], None, t)) ==
            [87, 50, 1] + [t, 0, 0, 0, 0, 0, 0, 0] + [2] + ([0, 0, 0, 0] + []) + ([0, 0, 0, 0] + [])
  {
    SmallNumber(t);
    SmallNumber(0);
    SmallNumber(1);
    assert t % U64 == t;
  }

  /** A snapshot with one record: a count, then key and record each behind their length. */
  lemma SnapshotBytes(k: byte, v: byte)
    ensures var r := Record(StringV([v]), -1, 0);
            EncodeSnapshot([([k], r)]) ==
            [83, 50, 1] + [1, 0, 0, 0] + (([1, 0, 0, 0] + [k]) + ([38, 0, 0, 0] + EncodeRecord(r)))
  {
    var es: seq<(Str, Record)> := [([k], Record(StringV([v]), -1, 0))];
    SmallNumber(1);
    SmallNumber(38);
    assert es[1..] == [] && |Payload(StringV([v]))| == 5;
    assert EncodeEntries(EncodeEntry, es) == EncodeEntry(es[0]) + EncodeEntries(EncodeEntry, []);
    Unit(EncodeEntry(es[0]));
  }

  // ----- What the readers insist on -----

  /** Magic, version and type byte are checked: nothing else is ever taken for a value, a record or a snapshot. */
  lemma HeadersAreChecked(b: Str)
    ensures DecodeValue(b).Some? ==> |b| >= 18 && b[..3] == [68, 86, 1] && b[3] <= 3
    ensures DecodeRecord(b).Some? ==> |b| >= 15 && b[..3] == [82, 67, 1]
    ensures ReadSnapshot(b).Some? ==> |b| >= 7 && b[..3] == [83, 50, 1]
  {
  }

  /** In the log a wrong magic or version is damage as soon as it can be seen; fewer bytes are an incomplete tail. */
  lemma EventHeaderIsChecked(b: Str)
    ensures |b| < 3 ==> DecodeOne(b).Incomplete?
    ensures |b| >= 3 && b[..3] != [87, 50, 1] ==> DecodeOne(b).Corrupt?
    ensures DecodeOne(b).Ok? ==> b[..3] == [87, 50, 1]
  {
  }
}
