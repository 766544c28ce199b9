/** Values, records and write events of the storage engine. */
module Model {
  import opened Bytes

  datatype DataValue =
    | StringV(str: Str)
    | ListV(list: seq<Str>)
    | SetV(members: set<Str>)
    | HashV(fields: map<Str, Str>)

  /** expireAt is an absolute time in microseconds; a negative value means no expiry. */
  datatype Record = Record(value: DataValue, expireAt: i64, version: u64)

  const PUT: byte := 0
  const DEL: byte := 1
  const CLEAR: byte := 2

  /** kind is the raw type byte: the log decoder accepts any value here. */
  datatype Mutation = Mutation(kind: byte, key: Str, record: Option<Record>, ts: i64)
}
