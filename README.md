# rodis hashes over LevelDB

A Dafny model of how rodis, a Redis-compatible server written in Go, stores Redis hashes in
LevelDB and runs the hash commands on them.

LevelDB is modelled as a map from byte strings to byte strings (`Storage.LevelDB.data`). Its
prefix iterator yields the keys under a prefix in ascending bytewise order (`Storage.ScanKeys`,
`ByteOrder.SortedKeys`). A hash record `k` is laid out as follows (`Encoding`):

- one metadata entry at `'+' k` (the `'+'` is assumed; see "Left out"), holding the record's
  type tag;
- one value entry per field `f`, at `'-' k '|' f`, holding the field's value.

The modules, in dependency order:

- `ByteOrder`: bytes, LevelDB's default comparator, and sorted enumeration of a key set.
- `Encoding`: the key layout, and field decoding by the first `'|'`.
- `Decimal`: `strconv.ParseInt(s, 10, 64)`, `strconv.FormatInt(n, 10)` and Go's wrapping int64
  addition.
- `Storage`: the `LevelDB` class with the hash methods of `storage/hash.go`, each proved against
  a function of the store.
- `StorageProperties`: what those methods guarantee.
- `Resp`: the replies a handler produces.
- `HashSemantics`: each hash command as a function from the store and the arguments to a reply
  and a new store.
- `Command`: the handlers of `command/hash.go`, each proved to produce exactly the reply and the
  store that `HashSemantics` prescribes.
- `CommandProperties`: what the commands promise a client, proved over `HashSemantics`.

Key facts proved:

- Encoding:
  - Field keys are injective.
  - Metadata keys never fall into a record's scan range.
  - For a key without `'|'`, decoding inverts encoding. A key with `'|'` demonstrably misdecodes.
- Listings:
  - A record's prefix scan lists exactly its stored fields, in strictly ascending order.
  - HKEYS, HVALS, HGETALL and HLEN agree with each other.
- Commands:
  - Every command rejects a key of another type and writes nothing.
  - Both halves of the store invariant are preserved: no field entry without its metadata
    entry, and no hash metadata entry without a field entry.
  - HSET/HSETNX/HMSET/HDEL/HINCRBY write exactly the named fields and no others.
  - For HMSET the last pair of a repeated field wins.
  - HINCRBY can always re-read what it wrote, and wraps like Go's int64.

The command handlers run under the database's reader/writer lock, so each command is modelled as
one atomic step.

## Model

| member | source | states |
|---|---|---|
| Encoding.EncodeFieldKey | storage/hash.go:21-27 | the value key is `'-'`, the record key, `'|'`, then the field; its parts sit at fixed offsets |
| Encoding.IndexByte | storage/hash.go:63 | `strings.IndexByte`: -1 exactly when the byte is absent, else the position of its first occurrence |
| Encoding.PrefixedIsFieldKey | storage/hash.go:59-65 | for a key without `'|'`, every store key in the record's scan range is the field key of the name decoded after its first `'|'` |
| Encoding.DecodeFieldKey | storage/hash.go:62-65 | for a key without `'|'`, decoding a field key gives back the field |
| Encoding.EncodingInjective | storage/hash.go:21-27 | distinct fields of one record get distinct keys; distinct records get distinct metadata keys |
| Encoding.MetaKeyDisjoint | storage/hash.go:31-35 | a metadata key is never a field key, and never lies in any record's scan range |
| Encoding.SeparatorInKeyMisdecodes | storage/hash.go:62-65 | field `c` of record `a|b` decodes as `b|c` and lies in the scan range of record `a` |
| Decimal.ParseInt | command/hash.go:128 | ParseInt succeeds only on an optional sign followed by at least one decimal digit; a negative result has a leading `-` |
| Decimal.ParseFormatRoundTrip | command/hash.go:147-153 | a canonical decimal (no `+`, no leading zero, not `-0`) that parses is formatted back to the same bytes |
| Decimal.ParseIntExamples | command/hash.go:128 | ParseInt accepts `+5`, `007` and `-0`, and rejects the empty string and a bare sign |
| Decimal.ParseIntRange | command/hash.go:128 | the digits of 2^63 overflow without a sign and give MinInt64 after a `-` |
| Decimal.FormatInt | command/hash.go:153 | FormatInt output is non-empty and starts with `-` exactly for negative values |
| Decimal.FormatParseRoundTrip | command/hash.go:147-153 | parsing what FormatInt wrote gives back the same int64 |
| Decimal.Wrap64 | command/hash.go:151 | int64 `+` is congruent to the exact sum modulo 2^64, and equals it when no overflow occurs |
| Decimal.Wrap64Overflow | command/hash.go:151 | MaxInt64 + 1 wraps to MinInt64 |
| ByteOrder.SortedKeys | storage/hash.go:35-38 | the keys an iteration visits are strictly ascending, are exactly the key set, and each appears once |
| Storage.LevelDB.Scan | storage/hash.go:35-39 | a prefix iteration run to its end yields the prefixed keys in ascending order |
| Storage.LevelDB.DeleteHash | storage/hash.go:30-41 | the new store is the old one without the metadata entry and every key in the record's scan range |
| Storage.BuildHashBatch | storage/hash.go:45-49 | the batch built field by field holds the metadata entry and one entry per field of the map, and nothing else |
| Storage.LevelDB.PutHash | storage/hash.go:44-53 | the new store is the old one overwritten by one batch: the metadata entry plus one entry per field of the map |
| Storage.LevelDB.GetHash | storage/hash.go:56-71 | the result is the scan's (decoded field, value) pairs put into a map in scan order |
| Storage.LevelDB.GetHashAsArray | storage/hash.go:74-89 | the result is the scan's (decoded field, value) pairs in scan order |
| Storage.LevelDB.DeleteFields | storage/hash.go:92-107 | the named field entries are removed; the metadata entry is removed too when nothing is left in the scan range |
| Storage.LevelDB.GetFields | storage/hash.go:110-117 | the result maps each requested field to its stored value, or to empty when it has none |
| Storage.LevelDB.GetFieldNames | storage/hash.go:120-134 | the result is the scan's decoded field names in scan order |
| Storage.LevelDB.GetFieldsAsArray | storage/hash.go:137-144 | the result has one pair per requested field, in request order, each with its stored value or empty |
| StorageProperties.PutHashEffect | storage/hash.go:44-53 | after PutHash the record has the given type, and every field of the map holds its value |
| StorageProperties.PutHashFrame | storage/hash.go:44-53 | PutHash leaves every other field of the record and every other store entry unchanged |
| StorageProperties.DeleteFieldsEffect | storage/hash.go:92-107 | named field entries are absent, other fields are unchanged, every other entry keeps its presence and value, and the type is gone exactly when the scan range is empty |
| StorageProperties.DeleteHashEffect | storage/hash.go:30-41 | after DeleteHash the record has no type, no fields and an empty scan; every entry outside it keeps its presence and value |
| StorageProperties.ScanReachesEveryField | storage/hash.go:34-35 | every stored field key of a record lies in the record's prefix scan |
| StorageProperties.ScanKeysDecode | storage/hash.go:59-65 | for a key without `'|'`, each scanned key is the record prefix followed by the decoded name |
| StorageProperties.FieldNamesSorted | storage/hash.go:120-134 | for a key without `'|'`, the listed names are strictly ascending (so distinct), one per entry in the scan range |
| StorageProperties.EntriesHoldStoredValues | storage/hash.go:74-89 | for a key without `'|'`, every listed pair carries the value a point read of that field gives |
| StorageProperties.FieldNamesComplete | storage/hash.go:120-134 | for a key without `'|'`, a name is listed exactly when that field's entry is stored |
| StorageProperties.ToMapDomain | storage/hash.go:67 | the map filled from the pairs has exactly the listed names as keys |
| StorageProperties.ToMapLastWins | storage/hash.go:67 | a pair whose name no later pair repeats survives in the map |
| StorageProperties.GetHashExact | storage/hash.go:56-71 | for a key without `'|'`, GetHash holds exactly the stored fields, each with its stored value |
| HashSemantics.Flatten | command/hash.go:120-122 | two reply elements per entry: the field's bulk string at 2i and the value's bulk string at 2i+1 |
| Command.CountNonEmpty | command/hash.go:56-61 | the count is the number of fetched fields with a non-empty value |
| Command.HDel | command/hash.go:34-64 | hdel replies and leaves the store exactly as `HashSemantics.HDel` prescribes |
| Command.HExists | command/hash.go:67-81 | the reply is `HashSemantics.HExists` of the store |
| Command.HGet | command/hash.go:84-102 | the reply is `HashSemantics.HGet` of the store |
| Command.HGetAll | command/hash.go:105-124 | the reply is `HashSemantics.HGetAll` of the store |
| Command.FieldPairs | command/hash.go:118-122 | the array built is `Flatten` of the entries |
| Command.HIncrByStores | command/hash.go:143-156 | once both integers parse, hincrby replies the (wrapped) sum and stores its decimal form under the field |
| Command.HIncrBy | command/hash.go:127-157 | hincrby replies and leaves the store exactly as `HashSemantics.HIncrBy` prescribes |
| Command.HKeys | command/hash.go:193-212 | the reply is `HashSemantics.HKeys` of the store |
| Command.HVals | command/hash.go:215-234 | the reply is `HashSemantics.HVals` of the store |
| Command.HLen | command/hash.go:237-251 | the reply is `HashSemantics.HLen` of the store |
| Command.HMGet | command/hash.go:254-282 | the reply is `HashSemantics.HMGet` of the store |
| Command.HMSet | command/hash.go:285-305 | hmset replies and leaves the store exactly as `HashSemantics.HMSet` prescribes |
| Command.HSet | command/hash.go:308-330 | hset replies and leaves the store exactly as `HashSemantics.HSet` prescribes |
| Command.HSetNx | command/hash.go:333-354 | hsetnx replies and leaves the store exactly as `HashSemantics.HSetNx` prescribes |
| Command.HStrLen | command/hash.go:357-371 | the reply is `HashSemantics.HStrLen` of the store |
| CommandProperties.ArityErrors | command/hash.go:286-288 | hdel and hmget with fewer than 2 arguments, and hmset with an even count or fewer than 3, reply the wrong-number-of-arguments error naming the command and write nothing |
| CommandProperties.WrongTypeRejected | command/hash.go:46-48 | on a key holding another type every hash command replies WrongType and writes nothing (hincrby only once its increment parses) |
| CommandProperties.FieldKeyOwner | storage/hash.go:21-27 | two keys without `'|'` never share a field key |
| CommandProperties.PutHashKeepsConsistent | storage/hash.go:44-53 | PutHash keeps every field entry accompanied by its record's metadata entry |
| CommandProperties.DeleteFieldsKeepsConsistent | storage/hash.go:100-105 | DeleteFields removes the metadata entry only once no field entry of the record is left |
| CommandProperties.HDelKeepsConsistent | command/hash.go:62 | hdel keeps the store consistent |
| CommandProperties.HMSetKeepsConsistent | command/hash.go:303 | hmset keeps the store consistent |
| CommandProperties.HSetKeepsConsistent | command/hash.go:323-324 | hset and hsetnx keep the store consistent |
| CommandProperties.HIncrByKeepsConsistent | command/hash.go:153-155 | hincrby keeps the store consistent |
| CommandProperties.PutHashKeepsFields | storage/hash.go:44-53 | PutHash of at least one field keeps every hash record with an entry in its scan range |
| CommandProperties.DeleteFieldsKeepsFields | storage/hash.go:100-105 | DeleteFields keeps the metadata entry only while some entry is left in the record's scan range |
| CommandProperties.HDelKeepsFields | command/hash.go:62 | hdel on a key without `'|'` never leaves a hash record without a field entry |
| CommandProperties.HSetKeepsFields | command/hash.go:323-324 | hset and hsetnx never leave a hash record without a field entry |
| CommandProperties.HMSetKeepsFields | command/hash.go:298-303 | hmset never leaves a hash record without a field entry: a well-formed call names at least one field |
| CommandProperties.HIncrByKeepsFields | command/hash.go:153-155 | hincrby never leaves a hash record without a field entry |
| CommandProperties.HashExistsIffFields | command/hash.go:237-251 | under both halves of the invariant, a key without `'|'` is a hash exactly when hlen is positive |
| CommandProperties.AbsentKeyDefaults | command/hash.go:88-90 | in a consistent store, a missing key reads as nil, 0, an empty array, or one nil per field; hdel replies 0 and writes nothing |
| CommandProperties.HDelCount | command/hash.go:56-63 | hdel's count lies between 0 and the number of named fields, and is 0 exactly when none of them held a value |
| CommandProperties.HDelEffect | command/hash.go:62 | after hdel, hget of each named field is nil and every other field is unchanged |
| CommandProperties.HDelLastFieldRemovesKey | storage/hash.go:100-105 | deleting every stored field removes the key: its type is gone, hlen is 0 and hgetall is empty |
| CommandProperties.HSetEffect | command/hash.go:308-330 | hset replies 1 exactly when the field was empty (0 otherwise); the field then holds the value and the key is a hash; other fields are unchanged |
| CommandProperties.HSetTwice | command/hash.go:317-330 | setting a field twice: the second hset replies 0 and hget gives the second value |
| CommandProperties.HSetNxEffect | command/hash.go:342-353 | hsetnx on a field with a value replies 0 and writes nothing; on a field without one it is hset and replies 1 |
| CommandProperties.HSetNxKeepsFirst | command/hash.go:342-353 | after one hsetnx a second one changes nothing; the field keeps its first non-empty value |
| CommandProperties.EmptyValueListedButNotRead | command/hash.go:84-102 | after `HSET k f ""` on a key without `'|'` and without fields, hget replies nil and hexists 0, while hlen replies 1 and hkeys lists `f` |
| CommandProperties.OneFieldListed | storage/hash.go:120-134 | PutHash of one field on a key without `'|'` and without fields leaves exactly that field listed and one entry in the scan range |
| CommandProperties.PairsDomain | command/hash.go:298-302 | the hmset map holds exactly the names of the argument pairs |
| CommandProperties.PairsLastWins | command/hash.go:298-302 | a field's value in the hmset map comes from the last pair naming it |
| CommandProperties.HMSetEffect | command/hash.go:285-305 | hmset replies OK, the key becomes a hash, each named field holds its last pair's value, and unnamed fields are unchanged |
| CommandProperties.HMSetLastWinsThenHMGet | command/hash.go:298-302 | `HMSET k f a f b` then `HMGET k f` replies `[b]` |
| CommandProperties.PutHashOnEmptyLists | storage/hash.go:44-53 | PutHash on a key without `'|'` whose scan range is empty lists exactly the fields of the map |
| CommandProperties.HMSetThenHKeys | command/hash.go:303 | hmset on a fresh key without `'|'`, then hkeys, lists exactly the named fields; hget of each gives its last pair's value |
| CommandProperties.HIncrByRejects | command/hash.go:128-150 | a non-integer increment, or a non-integer stored value, makes hincrby reply NotValidInt and write nothing |
| CommandProperties.HIncrByEffect | command/hash.go:141-156 | hincrby replies the wrapped sum of the stored value (0 if empty) and the increment, and stores its decimal form, which parses back to the reply; the key becomes a hash; other fields are unchanged |
| CommandProperties.HIncrByTwice | command/hash.go:143-156 | two hincrby calls on a fresh field reply the first increment, then the wrapped sum |
| CommandProperties.HIncrByScenario | command/hash.go:127-157 | on a fresh field, `HINCRBY 5` replies 5, then `HINCRBY -2` replies 3; `HINCRBY abc` replies NotValidInt |
| CommandProperties.ListingsAgree | command/hash.go:105-251 | on a hash, hgetall has two items per hkeys name, and pairs each name with the hvals value at the same position; hlen equals the number of hkeys names |
| CommandProperties.HKeysExact | command/hash.go:193-212 | on a hash whose key has no `'|'`, hkeys lists every stored field once, in ascending order; hgetall pairs each with its stored value |
| CommandProperties.FieldReadsAgree | command/hash.go:67-102 | hexists, hget and hstrlen agree on whether a field has a value; hmget replies, in order, what hget replies for each field |

## Left out

- Locking (`ex.DB.Lock`/`RLock`) is not modelled: each command is one atomic step on the store.
  So are concurrency, goroutines and crash behaviour between DeleteFields' two deletes.
- hincrbyfloat and HSCAN are left out: the first relies on floating point parsing and
  formatting, and the second has no handler in `command/hash.go`.
- Writing replies to the client is left out. RESP serialisation and I/O errors from `WriteTo`
  are not modelled; a handler returns a `Resp.Reply`.
- goleveldb internals are left out: its files, snapshots, iterator errors, and the panic on a
  failed batch write. A batch is applied as one map update.
- The following are used by the hash code but defined in files that are not part of this model:
  - `encodeMetaKey`, `encodeMetadata`, `DB.Has`, `ldb.get`, `ldb.delete`;
  - the constants `MetaPrefix` and `resp.Hash`.

  They are modelled as follows:
  - metadata key = a prefix byte plus the key; the prefix byte `'+'` is assumed, and only its
    difference from `'-'` is used;
  - metadata value = the one-byte type tag;
  - `Has` = presence of the metadata entry, plus that entry's first byte;
  - a get of an absent key returns the empty string;
  - the hash type tag is an arbitrary byte constant.
- Command.HExists, Command.HGet, Command.HStrLen: require at least 2 arguments, and
  Command.HIncrBy, Command.HSet, Command.HSetNx at least 3. These handlers index `v[1]`/`v[2]`
  without checking and rely on the command table's arity check, which is not part of this model.
- Command.HGetAll, Command.HKeys, Command.HVals, Command.HLen: require a key argument, for the
  same reason.
- Keys containing `'|'` are outside the exactness lemmas (GetHashExact, FieldNamesComplete,
  HKeysExact, both halves of the store invariant): for such keys the source decodes field names wrongly,
  as SeparatorInKeyMisdecodes shows. The handlers themselves are modelled for all keys, with the
  source's decoding.
- The field name is decoded after the first `'|'` in the whole store key, as the code does. It
  is not decoded at the fixed offset |key| + 2; the two agree only for keys without `'|'`.
- Storage.LevelDB.GetHashAsArray: its source comment speaks of insertion order, but a prefix
  iteration yields ascending key order, and that is what the model states.
- An empty field value reads like an absent field in the point reads, as in the source: hexists,
  hget, hmget, hstrlen, the "was it set" test of hset and hsetnx, hincrby (which starts from 0),
  and hdel's count. The listings do not: hkeys, hvals, hgetall and hlen still list and count such
  a field. After `HSET k f ""`, hget replies nil and hlen replies 1
  (EmptyValueListedButNotRead).
