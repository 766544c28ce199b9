/** Binary form of a record around the value codec. */
module RecordCodec {
  import opened Bytes
  import opened Model
  import opened DataValueCodec

  /** 'R' 'C', version 1, record version, value length, value bytes. */
  function EncodeRecord(r: Record): (b: Str)
    ensures |b| == 33 + |Payload(r.value)|
  {
    var dv := EncodeValue(r.value, r.expireAt);
    [82, 67, 1] + LE(r.version, 8) + LE(|dv|, 4) + dv
  }

  /** Bytes after the value are ignored. */
  function DecodeRecord(b: Str): Option<Record> {
    if |b| < 15 || b[0] != 82 || b[1] != 67 || b[2] != 1 then None
    else
      var n := U32At(b, 11);
      if 15 + n > |b| then None
      else
        match DecodeValue(b[15..15 + n])
        case None => None
        case Some((v, e)) => Some(Record(v, e, U64At(b, 3)))
  }

  lemma RecordRoundTrip(r: Record)
    requires |EncodeRecord(r)| < U32
    ensures DecodeRecord(EncodeRecord(r)) == Some(r)
  {
    var b := EncodeRecord(r);
    var dv := EncodeValue(r.value, r.expireAt);
    FourParts([82, 67, 1], LE(r.version, 8), LE(|dv|, 4), dv);
    U64AtLE(b, 3, r.version);
    U32AtLE(b, 11, |dv|);
    assert b[15..15 + |dv|] == b[15..];
    ValueRoundTrip(r.value, r.expireAt);
  }

  lemma RecordNeverExpands(b: Str)
    requires DecodeRecord(b).Some?
    ensures |EncodeRecord(DecodeRecord(b).value)| <= |b|
  {
    ValueNeverExpands(b[15..15 + U32At(b, 11)]);
  }

  // ----- The codec as it runs -----

  method EncodeRecordBytes(r: Record) returns (out: Str)
    ensures out == EncodeRecord(r)
  {
    out := [82, 67, 1];
    out := AppendLE(out, r.version, 8);
    var dv := DataValueCodec.Encode(r.value, r.expireAt);
    out := AppendLE(out, |dv|, 4);
    out := out + dv;
  }

  method DecodeRecordBytes(data: Str) returns (r: Option<Record>)
    ensures r == DecodeRecord(data)
  {
    r := None;
    if |data| < 3 || data[0] != 82 || data[1] != 67 || data[2] != 1 { return; }
    var ok, version, off := ReadLE(data, 3, 8);
    if !ok { return; }
    var n;
    ok, n, off := ReadLE(data, off, 4);
    if !ok || off + n > |data| { return; }
    assert version == U64At(data, 3) && n == U32At(data, 11);
    var v := DataValueCodec.Decode(data[15..15 + n]);
    if v.Some? {
      r := Some(Record(v.value.0, v.value.1, version));
    }
  }
}
