/**
 * What each hash command does, as a function of the store before it and its arguments (the
 * record key first, the command name already stripped). Each handler runs under the database
 * lock, so a command is one step from a store to a reply and a store.
 */
module HashSemantics {
  import opened Wrappers
  import opened ByteOrder
  import opened Encoding
  import opened Decimal
  import opened Storage
  import opened Resp

  /** The reply of a command and the store it leaves behind. */
  datatype Outcome = Outcome(reply: Reply, store: Store)

  /** The record exists and holds something other than a hash. */
  predicate WrongTypeKey(m: Store, key: Bytes)
  {
    KeyType(m, key).Some? && KeyType(m, key).value != HashType
  }

  /** The store after PutHash(key, resp.Hash, hash). */
  function PutHashStore(m: Store, key: Bytes, hash: map<Bytes, Bytes>): Store
  {
    m + HashBatch(key, HashType, hash)
  }

  /** Number of distinct requested fields whose stored value is non-empty. */
  function PresentCount(m: Store, key: Bytes, fields: seq<Bytes>): nat
  {
    |set f | f in fields && StoredValue(m, key, f) != []|
  }

  /** The field/value pairs of an HMSET argument list, a later pair for a field overwriting an earlier one. */
  function Pairs(args: seq<Bytes>): map<Bytes, Bytes>
    requires |args| % 2 == 0
  {
    if args == [] then map[]
    else Pairs(args[..|args| - 2])[args[|args| - 2] := args[|args| - 1]]
  }

  /** Each entry as a field bulk string followed by a value bulk string. */
  function Flatten(fs: seq<Field>): (r: seq<Reply>)
    ensures |r| == 2 * |fs|
    ensures forall i :: 0 <= i < |fs| ==> r[2 * i] == Bulk(fs[i].key) && r[2 * i + 1] == Bulk(fs[i].value)
  {
    if fs == [] then []
    else Flatten(fs[..|fs| - 1]) + [Bulk(fs[|fs| - 1].key), Bulk(fs[|fs| - 1].value)]
  }

  /** Nil for an empty value, else its bulk string. */
  function ValueOrNil(value: Bytes): Reply
  {
    if value == [] then Nil else Bulk(value)
  }

  /** HDEL key field [field ...] */
  function HDel(m: Store, v: seq<Bytes>): Outcome
  {
    if |v| < 2 then Outcome(Error(WrongNumberOfArguments("hdel")), m)
    else if KeyType(m, v[0]).None? then Outcome(Integer(0), m)
    else if WrongTypeKey(m, v[0]) then Outcome(Error(WrongType), m)
    else Outcome(Integer(PresentCount(m, v[0], v[1..])), AfterDeleteFields(m, v[0], v[1..]))
  }

  /** HEXISTS key field */
  function HExists(m: Store, v: seq<Bytes>): Reply
    requires |v| >= 2
  {
    if WrongTypeKey(m, v[0]) then Error(WrongType)
    else if StoredValue(m, v[0], v[1]) == [] then Integer(0)
    else Integer(1)
  }

  /** HGET key field */
  function HGet(m: Store, v: seq<Bytes>): Reply
    requires |v| >= 2
  {
    if KeyType(m, v[0]).None? then Nil
    else if WrongTypeKey(m, v[0]) then Error(WrongType)
    else ValueOrNil(StoredValue(m, v[0], v[1]))
  }

  /** HGETALL key */
  ghost function HGetAll(m: Store, v: seq<Bytes>): Reply
    requires |v| >= 1
  {
    if KeyType(m, v[0]).None? then Array([])
    else if WrongTypeKey(m, v[0]) then Error(WrongType)
    else Array(Flatten(HashEntries(m, v[0])))
  }

  /** HINCRBY key field increment */
  function HIncrBy(m: Store, v: seq<Bytes>): Outcome
    requires |v| >= 3
  {
    var increment := ParseInt(v[2]);
    if increment.None? then Outcome(Error(NotValidInt), m)
    else if WrongTypeKey(m, v[0]) then Outcome(Error(WrongType), m)
    else
      var stored := StoredValue(m, v[0], v[1]);
      var current := if stored == [] then Some(0 as int64) else ParseInt(stored);
      if current.None? then Outcome(Error(NotValidInt), m)
      else
        var newVal := Wrap64(current.value as int + increment.value as int);
        Outcome(Integer(newVal as int), PutHashStore(m, v[0], map[v[1] := FormatInt(newVal)]))
  }

  /** HKEYS key */
  ghost function HKeys(m: Store, v: seq<Bytes>): Reply
    requires |v| >= 1
  {
    if KeyType(m, v[0]).None? then Array([])
    else if WrongTypeKey(m, v[0]) then Error(WrongType)
    else Array(Bulks(FieldNames(HashEntries(m, v[0]))))
  }

  /** HVALS key */
  ghost function HVals(m: Store, v: seq<Bytes>): Reply
    requires |v| >= 1
  {
    if KeyType(m, v[0]).None? then Array([])
    else if WrongTypeKey(m, v[0]) then Error(WrongType)
    else Array(Bulks(FieldValues(HashEntries(m, v[0]))))
  }

  /** HLEN key: the number of entries in the record's scan range. */
  function HLen(m: Store, v: seq<Bytes>): Reply
    requires |v| >= 1
  {
    if KeyType(m, v[0]).None? then Integer(0)
    else if WrongTypeKey(m, v[0]) then Error(WrongType)
    else Integer(|PrefixKeys(m, FieldPrefix(v[0]))|)
  }

  /** HMGET key field [field ...] */
  function HMGet(m: Store, v: seq<Bytes>): Reply
  {
    if |v| < 2 then Error(WrongNumberOfArguments("hmget"))
    else if WrongTypeKey(m, v[0]) then Error(WrongType)
    else Array(seq(|v| - 1, i requires 0 <= i < |v| - 1 => ValueOrNil(StoredValue(m, v[0], v[i + 1]))))
  }

  /** HMSET key field value [field value ...] */
  function HMSet(m: Store, v: seq<Bytes>): Outcome
  {
    if |v| <= 1 || |v| % 2 != 1 then Outcome(Error(WrongNumberOfArguments("hmset")), m)
    else if WrongTypeKey(m, v[0]) then Outcome(Error(WrongType), m)
    else Outcome(Ok, PutHashStore(m, v[0], Pairs(v[1..])))
  }

  /** HSET key field value */
  function HSet(m: Store, v: seq<Bytes>): Outcome
    requires |v| >= 3
  {
    if WrongTypeKey(m, v[0]) then Outcome(Error(WrongType), m)
    else
      var reply := if StoredValue(m, v[0], v[1]) == [] then Integer(1) else Integer(0);
      Outcome(reply, PutHashStore(m, v[0], map[v[1] := v[2]]))
  }

  /** HSETNX key field value */
  function HSetNx(m: Store, v: seq<Bytes>): Outcome
    requires |v| >= 3
  {
    if WrongTypeKey(m, v[0]) then Outcome(Error(WrongType), m)
    else if StoredValue(m, v[0], v[1]) != [] then Outcome(Integer(0), m)
    else Outcome(Integer(1), PutHashStore(m, v[0], map[v[1] := v[2]]))
  }

  /** HSTRLEN key field */
  function HStrLen(m: Store, v: seq<Bytes>): Reply
    requires |v| >= 2
  {
    if KeyType(m, v[0]).None? then Integer(0)
    else if WrongTypeKey(m, v[0]) then Error(WrongType)
    else Integer(|StoredValue(m, v[0], v[1])|)
  }
}
