/**
 * The hash command handlers of command/hash.go over one LevelDB instance. Each handler is proved
 * to produce the reply, and leave the store, that HashSemantics prescribes.
 */
module Command {
  import opened Wrappers
  import opened ByteOrder
  import opened Encoding
  import opened Decimal
  import opened Storage
  import opened Resp
  import HashSemantics

  /** The count++ loop of hdel: how many values of the fetched map are non-empty. */
  method CountNonEmpty(hash: map<Bytes, Bytes>) returns (count: nat)
    ensures count == |set f | f in hash && hash[f] != []|
  {
    count := 0;
    var rest := hash.Keys;
    while rest != {}
      invariant rest <= hash.Keys
      invariant count == |set f | f in hash.Keys - rest && hash[f] != []|
      decreases |rest|
    {
      var f :| f in rest;
      ghost var before := set g | g in hash.Keys - rest && hash[g] != [];
      ghost var after := set g | g in hash.Keys - (rest - {f}) && hash[g] != [];
      if hash[f] != [] {
        assert after == before + {f};
        count := count + 1;
      } else {
        assert after == before;
      }
      rest := rest - {f};
    }
    assert hash.Keys - rest == hash.Keys;
  }

  /** hdel */
  method HDel(db: LevelDB, v: seq<Bytes>) returns (reply: Reply)
    modifies db
    ensures HashSemantics.Outcome(reply, db.data) == HashSemantics.HDel(old(db.data), v)
  {
    if |v| < 2 {
      return Error(WrongNumberOfArguments("hdel"));
    }
    var keyExists, tipe := db.Has(v[0]);
    if !keyExists {
      return Integer(0);
    }
    if tipe != HashType {
      return Error(WrongType);
    }
    var fields := v[1..];
    var hash := db.GetFields(v[0], fields);
    var count := CountNonEmpty(hash);
    assert (set f | f in hash && hash[f] != []) == (set f | f in fields && StoredValue(db.data, v[0], f) != []);
    db.DeleteFields(v[0], fields);
    return Integer(count);
  }

  /** hexists */
  method HExists(db: LevelDB, v: seq<Bytes>) returns (reply: Reply)
    requires |v| >= 2
    ensures reply == HashSemantics.HExists(db.data, v)
  {
    var keyExists, tipe := db.Has(v[0]);
    if keyExists && tipe != HashType {
      return Error(WrongType);
    }
    var hash := db.GetFields(v[0], [v[1]]);
    if |hash[v[1]]| == 0 {
      return Integer(0);
    }
    return Integer(1);
  }

  /** hget */
  method HGet(db: LevelDB, v: seq<Bytes>) returns (reply: Reply)
    requires |v| >= 2
    ensures reply == HashSemantics.HGet(db.data, v)
  {
    var keyExists, tipe := db.Has(v[0]);
    if !keyExists {
      return Nil;
    }
    if tipe != HashType {
      return Error(WrongType);
    }
    var hash := db.GetFields(v[0], [v[1]]);
    if |hash[v[1]]| == 0 {
      return Nil;
    }
    return Bulk(hash[v[1]]);
  }

  /** hgetall */
  method HGetAll(db: LevelDB, v: seq<Bytes>) returns (reply: Reply)
    requires |v| >= 1
    ensures reply == HashSemantics.HGetAll(db.data, v)
  {
    var keyExists, tipe := db.Has(v[0]);
    if !keyExists {
      return Array([]);
    }
    if tipe != HashType {
      return Error(WrongType);
    }
    var hash := db.GetHashAsArray(v[0]);
    var arr := FieldPairs(hash);
    return Array(arr);
  }

  /** The append loop of hgetall: a field bulk string then a value bulk string per entry. */
  method FieldPairs(hash: seq<Field>) returns (arr: seq<Reply>)
    ensures arr == HashSemantics.Flatten(hash)
  {
    arr := [];
    for i := 0 to |hash|
      invariant arr == HashSemantics.Flatten(hash[..i])
    {
      assert hash[..i + 1][..i] == hash[..i];
      arr := arr + [Bulk(hash[i].key), Bulk(hash[i].value)];
    }
    assert hash[..|hash|] == hash;
  }

  /** hincrby */
  method HIncrBy(db: LevelDB, v: seq<Bytes>) returns (reply: Reply)
    requires |v| >= 3
    modifies db
    ensures HashSemantics.Outcome(reply, db.data) == HashSemantics.HIncrBy(old(db.data), v)
  {
    var increment := ParseInt(v[2]);
    if increment.None? {
      return Error(NotValidInt);
    }
    var keyExists, tipe := db.Has(v[0]);
    if keyExists && tipe != HashType {
      return Error(WrongType);
    }
    var hash := db.GetFields(v[0], [v[1]]);
    assert hash[v[1]] == StoredValue(db.data, v[0], v[1]);
    var newVal: int64 := 0;
    if |hash[v[1]]| == 0 {
      newVal := increment.value;
    } else {
      var i := ParseInt(hash[v[1]]);
      if i.None? {
        return Error(NotValidInt);
      }
      newVal := Wrap64(i.value as int + increment.value as int);
    }
    hash := hash[v[1] := FormatInt(newVal)];
    assert hash == map[v[1] := FormatInt(newVal)];
    HIncrByStores(db.data, v, increment.value, newVal);
    db.PutHash(v[0], HashType, hash);
    return Integer(newVal as int);
  }

  /** Once both integers parse, hincrby replies the wrapped sum and stores its decimal form. */
  lemma HIncrByStores(m: Store, v: seq<Bytes>, increment: int64, newVal: int64)
    requires |v| >= 3 && ParseInt(v[2]) == Some(increment) && !HashSemantics.WrongTypeKey(m, v[0])
    requires StoredValue(m, v[0], v[1]) == [] ==> newVal == increment
    requires StoredValue(m, v[0], v[1]) != [] ==>
      ParseInt(StoredValue(m, v[0], v[1])).Some? &&
      newVal == Wrap64(ParseInt(StoredValue(m, v[0], v[1])).value as int + increment as int)
    ensures HashSemantics.HIncrBy(m, v) ==
      HashSemantics.Outcome(Integer(newVal as int), HashSemantics.PutHashStore(m, v[0], map[v[1] := FormatInt(newVal)]))
  {
    if StoredValue(m, v[0], v[1]) == [] {
      assert Wrap64(0 + increment as int) == increment;
    }
  }

  /** hkeys */
  method HKeys(db: LevelDB, v: seq<Bytes>) returns (reply: Reply)
    requires |v| >= 1
    ensures reply == HashSemantics.HKeys(db.data, v)
  {
    var keyExists, tipe := db.Has(v[0]);
    if !keyExists {
      return Array([]);
    }
    if tipe != HashType {
      return Error(WrongType);
    }
    var fields := db.GetFieldNames(v[0]);
    var arr := [];
    for i := 0 to |fields|
      invariant |arr| == i
      invariant forall j :: 0 <= j < i ==> arr[j] == Bulk(fields[j])
    {
      arr := arr + [Bulk(fields[i])];
    }
    assert arr == Bulks(fields);
    return Array(arr);
  }

  /** hvals */
  method HVals(db: LevelDB, v: seq<Bytes>) returns (reply: Reply)
    requires |v| >= 1
    ensures reply == HashSemantics.HVals(db.data, v)
  {
    var keyExists, tipe := db.Has(v[0]);
    if !keyExists {
      return Array([]);
    }
    if tipe != HashType {
      return Error(WrongType);
    }
    var hash := db.GetHashAsArray(v[0]);
    var arr := [];
    for i := 0 to |hash|
      invariant |arr| == i
      invariant forall j :: 0 <= j < i ==> arr[j] == Bulk(hash[j].value)
    {
      arr := arr + [Bulk(hash[i].value)];
    }
    assert arr == Bulks(FieldValues(hash));
    return Array(arr);
  }

  /** hlen */
  method HLen(db: LevelDB, v: seq<Bytes>) returns (reply: Reply)
    requires |v| >= 1
    ensures reply == HashSemantics.HLen(db.data, v)
  {
    var keyExists, tipe := db.Has(v[0]);
    if !keyExists {
      return Integer(0);
    }
    if tipe != HashType {
      return Error(WrongType);
    }
    var fields := db.GetFieldNames(v[0]);
    return Integer(|fields|);
  }

  /** hmget */
  method HMGet(db: LevelDB, v: seq<Bytes>) returns (reply: Reply)
    ensures reply == HashSemantics.HMGet(db.data, v)
  {
    if |v| < 2 {
      return Error(WrongNumberOfArguments("hmget"));
    }
    var keyExists, tipe := db.Has(v[0]);
    if keyExists && tipe != HashType {
      return Error(WrongType);
    }
    var fields := v[1..];
    var hash := db.GetFieldsAsArray(v[0], fields);
    var arr := [];
    for i := 0 to |hash|
      invariant |arr| == i
      invariant forall j :: 0 <= j < i ==> arr[j] == HashSemantics.ValueOrNil(StoredValue(db.data, v[0], v[j + 1]))
    {
      if |hash[i].value| == 0 {
        arr := arr + [Nil];
      } else {
        arr := arr + [Bulk(hash[i].value)];
      }
    }
    return Array(arr);
  }

  /** hmset */
  method HMSet(db: LevelDB, v: seq<Bytes>) returns (reply: Reply)
    modifies db
    ensures HashSemantics.Outcome(reply, db.data) == HashSemantics.HMSet(old(db.data), v)
  {
    if |v| <= 1 || |v| % 2 != 1 {
      return Error(WrongNumberOfArguments("hmset"));
    }
    var exist, tipe := db.Has(v[0]);
    if exist && tipe != HashType {
      return Error(WrongType);
    }
    var hash := map[];
    var i := 1;
    while i < |v|
      invariant 1 <= i <= |v| && i % 2 == 1
      invariant hash == HashSemantics.Pairs(v[1..i])
      modifies {}
    {
      assert v[1..i + 2][..i - 1] == v[1..i];
      assert v[1..i + 2][i - 1] == v[i] && v[1..i + 2][i] == v[i + 1];
      hash := hash[v[i] := v[i + 1]];
      i := i + 2;
    }
    assert v[1..i] == v[1..];
    db.PutHash(v[0], HashType, hash);
    return Ok;
  }

  /** hset */
  method HSet(db: LevelDB, v: seq<Bytes>) returns (reply: Reply)
    requires |v| >= 3
    modifies db
    ensures HashSemantics.Outcome(reply, db.data) == HashSemantics.HSet(old(db.data), v)
  {
    var exist, tipe := db.Has(v[0]);
    if exist && tipe != HashType {
      return Error(WrongType);
    }
    var fieldExists := false;
    var hash := db.GetFields(v[0], [v[1]]);
    if |hash[v[1]]| != 0 {
      fieldExists := true;
    }
    hash := hash[v[1] := v[2]];
    assert hash == map[v[1] := v[2]];
    db.PutHash(v[0], HashType, hash);
    if !fieldExists {
      return Integer(1);
    }
    return Integer(0);
  }

  /** hsetnx */
  method HSetNx(db: LevelDB, v: seq<Bytes>) returns (reply: Reply)
    requires |v| >= 3
    modifies db
    ensures HashSemantics.Outcome(reply, db.data) == HashSemantics.HSetNx(old(db.data), v)
  {
    var exist, tipe := db.Has(v[0]);
    if exist && tipe != HashType {
      return Error(WrongType);
    }
    var fieldExists := false;
    var hash := db.GetFields(v[0], [v[1]]);
    if |hash[v[1]]| != 0 {
      fieldExists := true;
    }
    if !fieldExists {
      hash := hash[v[1] := v[2]];
      assert hash == map[v[1] := v[2]];
      db.PutHash(v[0], HashType, hash);
      return Integer(1);
    }
    return Integer(0);
  }

  /** hstrlen */
  method HStrLen(db: LevelDB, v: seq<Bytes>) returns (reply: Reply)
    requires |v| >= 2
    ensures reply == HashSemantics.HStrLen(db.data, v)
  {
    var exist, tipe := db.Has(v[0]);
    if !exist {
      return Integer(0);
    }
    if tipe != HashType {
      return Error(WrongType);
    }
    var hash := db.GetFields(v[0], [v[1]]);
    return Integer(|hash[v[1]]|);
  }
}
