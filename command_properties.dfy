/** What the hash commands promise their clients, stated over HashSemantics. */
module CommandProperties {
  import opened Wrappers
  import opened ByteOrder
  import opened Encoding
  import opened Decimal
  import opened Storage
  import opened Resp
  import opened HashSemantics
  import opened StorageProperties

  // ---------------------------------------------------------------------------------------------
  // Argument checks and type checks

  /** HDEL and HMGET need a field, HMSET an odd count of at least three; otherwise the error names the command and nothing is written. */
  lemma ArityErrors(m: Store, v: seq<Bytes>)
    ensures |v| < 2 ==> HDel(m, v) == Outcome(Error(WrongNumberOfArguments("hdel")), m)
    ensures |v| < 2 ==> HMGet(m, v) == Error(WrongNumberOfArguments("hmget"))
    ensures |v| <= 1 || |v| % 2 == 0 ==> HMSet(m, v) == Outcome(Error(WrongNumberOfArguments("hmset")), m)
  {
  }

  /** A key holding another type makes every hash command reply WrongType and write nothing. */
  lemma WrongTypeRejected(m: Store, v: seq<Bytes>)
    requires |v| >= 1 && WrongTypeKey(m, v[0])
    ensures HGetAll(m, v) == Error(WrongType) && HKeys(m, v) == Error(WrongType)
    ensures HVals(m, v) == Error(WrongType) && HLen(m, v) == Error(WrongType)
    ensures |v| >= 2 ==> HDel(m, v) == Outcome(Error(WrongType), m) && HMGet(m, v) == Error(WrongType)
    ensures |v| >= 2 ==> HExists(m, v) == Error(WrongType) && HGet(m, v) == Error(WrongType)
    ensures |v| >= 2 ==> HStrLen(m, v) == Error(WrongType)
    ensures |v| >= 3 ==> HSet(m, v) == Outcome(Error(WrongType), m) && HSetNx(m, v) == Outcome(Error(WrongType), m)
    ensures |v| >= 3 && ParseInt(v[2]).Some? ==> HIncrBy(m, v) == Outcome(Error(WrongType), m)
    ensures |v| % 2 == 1 && |v| > 1 ==> HMSet(m, v) == Outcome(Error(WrongType), m)
  {
  }

  // ---------------------------------------------------------------------------------------------
  // The store invariant: a field entry never outlives its record's metadata entry

  /** Every field entry of a record whose key has no separator byte comes with that record's metadata entry. */
  ghost predicate Consistent(m: Store)
  {
    forall key, f :: NoSeparator(key) && EncodeFieldKey(key, f) in m ==> EncodeMetaKey(key) in m
  }

  /** Two separator-free record keys never share a field key. */
  lemma FieldKeyOwner(a: Bytes, f: Bytes, b: Bytes, g: Bytes)
    requires NoSeparator(a) && NoSeparator(b)
    ensures EncodeFieldKey(a, f) == EncodeFieldKey(b, g) ==> a == b && f == g
  {
    var k := EncodeFieldKey(a, f);
    if k == EncodeFieldKey(b, g) {
      FieldPrefixOf(a, f);
      FieldPrefixOf(b, g);
      PrefixedIsFieldKey(a, k);
      PrefixedIsFieldKey(b, k);
      assert |a| == |b|;
      assert a == k[1..|a| + 1] == b;
    }
  }

  /** PutHash of a separator-free key keeps the store consistent. */
  lemma PutHashKeepsConsistent(m: Store, key: Bytes, hash: map<Bytes, Bytes>)
    requires Consistent(m) && NoSeparator(key)
    ensures Consistent(PutHashStore(m, key, hash))
  {
    var m' := PutHashStore(m, key, hash);
    PutHashEffect(m, key, HashType, hash);
    forall key', f | NoSeparator(key') && EncodeFieldKey(key', f) in m'
      ensures EncodeMetaKey(key') in m'
    {
      if EncodeFieldKey(key', f) !in m {
        MetaKeyDisjoint(key, key', f);
        assert EncodeFieldKey(key', f) in FieldKeys(key, hash.Keys);
        var g :| g in hash && EncodeFieldKey(key, g) == EncodeFieldKey(key', f);
        FieldKeyOwner(key, g, key', f);
      }
    }
  }

  /** DeleteFields keeps the store consistent: the metadata entry goes only once no field is left. */
  lemma DeleteFieldsKeepsConsistent(m: Store, key: Bytes, fields: seq<Bytes>)
    requires Consistent(m)
    ensures Consistent(AfterDeleteFields(m, key, fields))
  {
    var m' := AfterDeleteFields(m, key, fields);
    var pruned := m - FieldKeys(key, set f | f in fields);
    forall key', f | NoSeparator(key') && EncodeFieldKey(key', f) in m'
      ensures EncodeMetaKey(key') in m'
    {
      MetaKeyDisjoint(key', key, []);
      assert EncodeMetaKey(key') in pruned;
      if key' == key {
        FieldPrefixOf(key, f);
        assert EncodeFieldKey(key, f) in PrefixKeys(pruned, FieldPrefix(key));
      } else {
        EncodingInjective(key', [], [], key);
      }
    }
  }

  /** HDEL keeps the store consistent. */
  lemma HDelKeepsConsistent(m: Store, v: seq<Bytes>)
    requires Consistent(m)
    ensures Consistent(HDel(m, v).store)
  {
    if |v| >= 2 {
      DeleteFieldsKeepsConsistent(m, v[0], v[1..]);
    }
  }

  /** HMSET of a separator-free key keeps the store consistent. */
  lemma HMSetKeepsConsistent(m: Store, v: seq<Bytes>)
    requires Consistent(m) && |v| >= 1 && NoSeparator(v[0])
    ensures Consistent(HMSet(m, v).store)
  {
    if |v| > 1 && |v| % 2 == 1 {
      PutHashKeepsConsistent(m, v[0], Pairs(v[1..]));
    }
  }

  /** HSET and HSETNX of a separator-free key keep the store consistent. */
  lemma HSetKeepsConsistent(m: Store, v: seq<Bytes>)
    requires Consistent(m) && |v| >= 3 && NoSeparator(v[0])
    ensures Consistent(HSet(m, v).store) && Consistent(HSetNx(m, v).store)
  {
    PutHashKeepsConsistent(m, v[0], map[v[1] := v[2]]);
  }

  /** HINCRBY of a separator-free key keeps the store consistent. */
  lemma HIncrByKeepsConsistent(m: Store, v: seq<Bytes>)
    requires Consistent(m) && |v| >= 3 && NoSeparator(v[0])
    ensures Consistent(HIncrBy(m, v).store)
  {
    var increment := ParseInt(v[2]);
    var stored := StoredValue(m, v[0], v[1]);
    var current := if stored == [] then Some(0 as int64) else ParseInt(stored);
    if increment.Some? && current.Some? {
      var newVal := Wrap64(current.value as int + increment.value as int);
      PutHashKeepsConsistent(m, v[0], map[v[1] := FormatInt(newVal)]);
    }
  }

  // ---------------------------------------------------------------------------------------------
  // The other half of the record invariant: a hash record never exists without a field entry

  /** Every separator-free record typed as a hash has at least one entry in its scan range. */
  ghost predicate HashesHaveFields(m: Store)
  {
    forall key :: NoSeparator(key) && KeyType(m, key) == Some(HashType) ==> PrefixKeys(m, FieldPrefix(key)) != {}
  }

  /** PutHash of at least one field keeps every hash record with a field entry. */
  lemma PutHashKeepsFields(m: Store, key: Bytes, hash: map<Bytes, Bytes>)
    requires HashesHaveFields(m) && hash != map[]
    ensures HashesHaveFields(PutHashStore(m, key, hash))
  {
    var m' := PutHashStore(m, key, hash);
    PutHashEffect(m, key, HashType, hash);
    forall key' | NoSeparator(key') && KeyType(m', key') == Some(HashType)
      ensures PrefixKeys(m', FieldPrefix(key')) != {}
    {
      if key' == key {
        var f :| f in hash;
        FieldPrefixOf(key, f);
        FieldKeysMember(key, hash.Keys, f);
        assert EncodeFieldKey(key, f) in PrefixKeys(m', FieldPrefix(key));
      } else {
        EncodingInjective(key', [], [], key);
        forall g
          ensures EncodeMetaKey(key') != EncodeFieldKey(key, g)
        {
          MetaKeyDisjoint(key', key, g);
        }
        assert KeyType(m, key') == Some(HashType);
        var k :| k in PrefixKeys(m, FieldPrefix(key'));
        assert k in PrefixKeys(m', FieldPrefix(key'));
      }
    }
  }

  /** DeleteFields on a separator-free key keeps every hash record with a field entry. */
  lemma DeleteFieldsKeepsFields(m: Store, key: Bytes, fields: seq<Bytes>)
    requires HashesHaveFields(m) && NoSeparator(key)
    ensures HashesHaveFields(AfterDeleteFields(m, key, fields))
  {
    var m' := AfterDeleteFields(m, key, fields);
    var named := FieldKeys(key, set f | f in fields);
    var pruned := m - named;
    forall key' | NoSeparator(key') && KeyType(m', key') == Some(HashType)
      ensures PrefixKeys(m', FieldPrefix(key')) != {}
    {
      if key' == key {
        var k :| k in PrefixKeys(pruned, FieldPrefix(key));
        MetaKeyDisjoint(key, key, []);
        assert k in PrefixKeys(m', FieldPrefix(key));
      } else {
        EncodingInjective(key', [], [], key);
        assert KeyType(m, key') == Some(HashType);
        var k :| k in PrefixKeys(m, FieldPrefix(key'));
        PrefixedIsFieldKey(key', k);
        forall f | f in fields
          ensures EncodeFieldKey(key, f) != k
        {
          FieldKeyOwner(key, f, key', DecodeField(k));
        }
        assert k !in named;
        MetaKeyDisjoint(key, key', DecodeField(k));
        assert k in PrefixKeys(m', FieldPrefix(key'));
      }
    }
  }

  /** HDEL of a separator-free key never leaves a hash record without a field entry. */
  lemma HDelKeepsFields(m: Store, v: seq<Bytes>)
    requires HashesHaveFields(m) && |v| >= 1 && NoSeparator(v[0])
    ensures HashesHaveFields(HDel(m, v).store)
  {
    DeleteFieldsKeepsFields(m, v[0], v[1..]);
  }

  /** HSET and HSETNX never leave a hash record without a field entry. */
  lemma HSetKeepsFields(m: Store, v: seq<Bytes>)
    requires HashesHaveFields(m) && |v| >= 3
    ensures HashesHaveFields(HSet(m, v).store) && HashesHaveFields(HSetNx(m, v).store)
  {
    assert v[1] in map[v[1] := v[2]];
    PutHashKeepsFields(m, v[0], map[v[1] := v[2]]);
  }

  /** HMSET never leaves a hash record without a field entry: a well-formed call names a field. */
  lemma HMSetKeepsFields(m: Store, v: seq<Bytes>)
    requires HashesHaveFields(m)
    ensures HashesHaveFields(HMSet(m, v).store)
  {
    if |v| > 1 && |v| % 2 == 1 {
      PairedArguments(v);
      PairsDomain(v[1..]);
      assert PairName(v[1..], 0) == v[1];
      assert v[1] in Pairs(v[1..]);
      PutHashKeepsFields(m, v[0], Pairs(v[1..]));
    }
  }

  /** HINCRBY never leaves a hash record without a field entry. */
  lemma HIncrByKeepsFields(m: Store, v: seq<Bytes>)
    requires HashesHaveFields(m) && |v| >= 3
    ensures HashesHaveFields(HIncrBy(m, v).store)
  {
    var increment := ParseInt(v[2]);
    var stored := StoredValue(m, v[0], v[1]);
    var current := if stored == [] then Some(0 as int64) else ParseInt(stored);
    if increment.Some? && current.Some? {
      var newVal := Wrap64(current.value as int + increment.value as int);
      assert v[1] in map[v[1] := FormatInt(newVal)];
      PutHashKeepsFields(m, v[0], map[v[1] := FormatInt(newVal)]);
    }
  }

  /** Under both halves of the invariant, a separator-free key is a hash exactly when HLEN is positive. */
  lemma HashExistsIffFields(m: Store, key: Bytes)
    requires Consistent(m) && HashesHaveFields(m) && NoSeparator(key) && !WrongTypeKey(m, key)
    ensures KeyType(m, key) == Some(HashType) <==> HLen(m, [key]).n > 0
  {
    if KeyType(m, key).None? && PrefixKeys(m, FieldPrefix(key)) != {} {
      var k :| k in PrefixKeys(m, FieldPrefix(key));
      PrefixedIsFieldKey(key, k);
    }
  }

  /**
   * In a consistent store, reads of a missing separator-free key reply with the defaults: Nil,
   * an empty array, 0, or one Nil per requested field; HDEL replies 0 and writes nothing.
   */
  lemma AbsentKeyDefaults(m: Store, v: seq<Bytes>)
    requires Consistent(m) && |v| >= 2 && NoSeparator(v[0]) && KeyType(m, v[0]).None?
    ensures HGet(m, v) == Nil && HExists(m, v) == Integer(0) && HStrLen(m, v) == Integer(0)
    ensures HGetAll(m, v) == Array([]) && HKeys(m, v) == Array([]) && HVals(m, v) == Array([])
    ensures HLen(m, v) == Integer(0)
    ensures HDel(m, v) == Outcome(Integer(0), m)
    ensures HMGet(m, v) == Array(seq(|v| - 1, i => Nil))
  {
    forall f
      ensures StoredValue(m, v[0], f) == []
    {
      assert EncodeFieldKey(v[0], f) !in m;
    }
  }

  // ---------------------------------------------------------------------------------------------
  // HDEL

  /** A sequence has at most as many distinct elements as it has elements. */
  lemma {:induction false} DistinctAtMostLength(s: seq<Bytes>)
    ensures |set f | f in s| <= |s|
    decreases |s|
  {
    if s != [] {
      var init := s[..|s| - 1];
      DistinctAtMostLength(init);
      assert (set f | f in s) == (set f | f in init) + {s[|s| - 1]};
    }
  }

  /**
   * HDEL on a hash replies with a count between 0 and the number of named fields, 0 exactly when
   * none of them held a value.
   */
  lemma HDelCount(m: Store, v: seq<Bytes>)
    requires |v| >= 2 && KeyType(m, v[0]) == Some(HashType)
    ensures HDel(m, v).reply.Integer? && 0 <= HDel(m, v).reply.n <= |v| - 1
    ensures HDel(m, v).reply == Integer(0) <==> forall f :: f in v[1..] ==> StoredValue(m, v[0], f) == []
  {
    var named := set f | f in v[1..];
    var present := set f | f in v[1..] && StoredValue(m, v[0], f) != [];
    assert HDel(m, v).reply == Integer(|present|);
    DistinctAtMostLength(v[1..]);
    assert named == present + (named - present);
    assert |present| <= |named|;
    if forall f :: f in v[1..] ==> StoredValue(m, v[0], f) == [] {
      assert present == {};
    } else {
      var f :| f in v[1..] && StoredValue(m, v[0], f) != [];
      assert f in present;
    }
  }

  /** After HDEL on a hash no named field is left and every other field is kept. */
  lemma HDelEffect(m: Store, v: seq<Bytes>)
    requires |v| >= 2 && KeyType(m, v[0]) == Some(HashType)
    ensures forall f :: f in v[1..] ==> HGet(HDel(m, v).store, [v[0], f]) == Nil
    ensures forall g :: g !in v[1..] ==> StoredValue(HDel(m, v).store, v[0], g) == StoredValue(m, v[0], g)
  {
    DeleteFieldsEffect(m, v[0], v[1..]);
  }

  /** HDEL naming every stored field of a separator-free key removes the record: its type is gone and HLEN reads 0. */
  lemma HDelLastFieldRemovesKey(m: Store, v: seq<Bytes>)
    requires |v| >= 2 && KeyType(m, v[0]) == Some(HashType) && NoSeparator(v[0])
    requires forall f :: EncodeFieldKey(v[0], f) in m ==> f in v[1..]
    ensures KeyType(HDel(m, v).store, v[0]) == None
    ensures HLen(HDel(m, v).store, v[0..1]) == Integer(0)
    ensures HGetAll(HDel(m, v).store, v[0..1]) == Array([])
  {
    var key := v[0];
    var pruned := m - FieldKeys(key, set f | f in v[1..]);
    forall k | k in m && FieldPrefix(key) <= k
      ensures k in FieldKeys(key, set f | f in v[1..])
    {
      PrefixedIsFieldKey(key, k);
      var g := DecodeField(k);
      assert k == EncodeFieldKey(key, g);
      assert g in v[1..];
    }
    assert PrefixKeys(pruned, FieldPrefix(key)) == {};
  }

  // ---------------------------------------------------------------------------------------------
  // HSET and HSETNX

  /**
   * HSET replies 1 exactly when the field held no value, and leaves the field holding the new
   * value, the key typed as a hash, and every other field as it was.
   */
  lemma HSetEffect(m: Store, v: seq<Bytes>)
    requires |v| >= 3 && !WrongTypeKey(m, v[0])
    ensures HSet(m, v).reply == Integer(1) <==> StoredValue(m, v[0], v[1]) == []
    ensures HSet(m, v).reply == Integer(0) <==> StoredValue(m, v[0], v[1]) != []
    ensures StoredValue(HSet(m, v).store, v[0], v[1]) == v[2]
    ensures KeyType(HSet(m, v).store, v[0]) == Some(HashType)
    ensures HGet(HSet(m, v).store, v[0..2]) == ValueOrNil(v[2])
    ensures forall g :: g != v[1] ==> StoredValue(HSet(m, v).store, v[0], g) == StoredValue(m, v[0], g)
  {
    PutHashEffect(m, v[0], HashType, map[v[1] := v[2]]);
    PutHashFrame(m, v[0], HashType, map[v[1] := v[2]]);
  }

  /** Setting a field twice: the second HSET replies 0 and the field holds the second value. */
  lemma HSetTwice(m: Store, key: Bytes, field: Bytes, a: Bytes, b: Bytes)
    requires !WrongTypeKey(m, key) && a != []
    ensures HSet(HSet(m, [key, field, a]).store, [key, field, b]).reply == Integer(0)
    ensures HGet(HSet(HSet(m, [key, field, a]).store, [key, field, b]).store, [key, field]) == ValueOrNil(b)
  {
    var m1 := HSet(m, [key, field, a]).store;
    HSetEffect(m, [key, field, a]);
    HSetEffect(m1, [key, field, b]);
    assert [key, field, b][0..2] == [key, field];
  }

  /** HSETNX on a field with a value replies 0 and writes nothing; on a field without one it is HSET. */
  lemma HSetNxEffect(m: Store, v: seq<Bytes>)
    requires |v| >= 3 && !WrongTypeKey(m, v[0])
    ensures StoredValue(m, v[0], v[1]) != [] ==> HSetNx(m, v) == Outcome(Integer(0), m)
    ensures StoredValue(m, v[0], v[1]) == [] ==> HSetNx(m, v) == HSet(m, v) && HSetNx(m, v).reply == Integer(1)
  {
  }

  /** The first non-empty HSETNX value of a field stays: a second HSETNX replies 0 and changes nothing. */
  lemma HSetNxKeepsFirst(m: Store, key: Bytes, field: Bytes, a: Bytes, b: Bytes)
    requires !WrongTypeKey(m, key) && a != []
    ensures var m1 := HSetNx(m, [key, field, a]).store;
      HSetNx(m1, [key, field, b]) == Outcome(Integer(0), m1)
      && StoredValue(m1, key, field) == if StoredValue(m, key, field) == [] then a else StoredValue(m, key, field)
  {
    var m1 := HSetNx(m, [key, field, a]).store;
    if StoredValue(m, key, field) == [] {
      HSetEffect(m, [key, field, a]);
    }
    assert !WrongTypeKey(m1, key);
  }

  // ---------------------------------------------------------------------------------------------
  // HMSET

  /** The field name of pair q of an HMSET argument list (the key already stripped). */
  function PairName(args: seq<Bytes>, q: nat): Bytes
    requires 2 * q + 1 < |args|
  {
    args[2 * q]
  }

  /** The value of pair q of an HMSET argument list. */
  function PairValue(args: seq<Bytes>, q: nat): Bytes
    requires 2 * q + 1 < |args|
  {
    args[2 * q + 1]
  }

  /** Pair q exists and no later pair names the same field. */
  ghost predicate LastPairFor(args: seq<Bytes>, q: nat)
  {
    2 * q + 1 < |args| && forall r: nat :: q < r && 2 * r + 1 < |args| ==> PairName(args, r) != PairName(args, q)
  }

  /** No pair names field g. */
  ghost predicate NotNamed(args: seq<Bytes>, g: Bytes)
  {
    forall r: nat :: 2 * r + 1 < |args| ==> PairName(args, r) != g
  }

  /** The arguments after the key of a well-formed HMSET come in pairs. */
  lemma PairedArguments(v: seq<Bytes>)
    requires |v| % 2 == 1
    ensures |v[1..]| % 2 == 0
  {
  }

  /** The fields Pairs(args) holds are exactly the names of its pairs. */
  lemma {:induction false} PairsDomain(args: seq<Bytes>)
    requires |args| % 2 == 0
    ensures forall f :: f in Pairs(args) <==> !NotNamed(args, f)
    decreases |args|
  {
    if args != [] {
      var init := args[..|args| - 2];
      var last := (|args| - 2) / 2;
      assert 2 * last == |args| - 2;
      PairsDomain(init);
      forall f
        ensures f in Pairs(args) <==> !NotNamed(args, f)
      {
        if !NotNamed(args, f) {
          var q: nat :| 2 * q + 1 < |args| && PairName(args, q) == f;
          if q < last {
            assert PairName(init, q) == f;
          }
        }
        if f in Pairs(init) {
          var q: nat :| 2 * q + 1 < |init| && PairName(init, q) == f;
          assert PairName(args, q) == f;
        }
        if f == args[|args| - 2] {
          assert PairName(args, last) == f;
        }
      }
    }
  }

  /** The pair for a field that no later pair repeats gives that field's value: the last write wins. */
  lemma {:induction false} PairsLastWins(args: seq<Bytes>, q: nat)
    requires |args| % 2 == 0 && LastPairFor(args, q)
    ensures PairName(args, q) in Pairs(args) && Pairs(args)[PairName(args, q)] == PairValue(args, q)
    decreases |args|
  {
    var init := args[..|args| - 2];
    var last := (|args| - 2) / 2;
    assert 2 * last == |args| - 2;
    if q < last {
      assert PairName(args, last) != PairName(args, q);
      forall r: nat | q < r && 2 * r + 1 < |init|
        ensures PairName(init, r) != PairName(init, q)
      {
        assert PairName(args, r) != PairName(args, q);
      }
      PairsLastWins(init, q);
    }
  }

  /**
   * HMSET replies OK, types the key as a hash, leaves each named field holding the value of its
   * last pair, and every field it does not name as it was.
   */
  lemma HMSetEffect(m: Store, v: seq<Bytes>)
    requires |v| >= 3 && |v| % 2 == 1 && !WrongTypeKey(m, v[0])
    ensures HMSet(m, v).reply == Ok
    ensures KeyType(HMSet(m, v).store, v[0]) == Some(HashType)
    ensures forall q :: LastPairFor(v[1..], q) ==>
      StoredValue(HMSet(m, v).store, v[0], PairName(v[1..], q)) == PairValue(v[1..], q)
    ensures forall g :: NotNamed(v[1..], g) ==> StoredValue(HMSet(m, v).store, v[0], g) == StoredValue(m, v[0], g)
  {
    var args := v[1..];
    PairedArguments(v);
    var hash := Pairs(args);
    assert HMSet(m, v) == Outcome(Ok, PutHashStore(m, v[0], hash));
    PutHashEffect(m, v[0], HashType, hash);
    PutHashFrame(m, v[0], HashType, hash);
    forall q | LastPairFor(args, q)
      ensures StoredValue(PutHashStore(m, v[0], hash), v[0], PairName(args, q)) == PairValue(args, q)
    {
      PairsLastWins(args, q);
    }
    PairsDomain(args);
  }

  /** HMSET naming a field twice, then HMGET of it: the reply holds the second value. */
  lemma HMSetLastWinsThenHMGet(m: Store, key: Bytes, field: Bytes, a: Bytes, b: Bytes)
    requires !WrongTypeKey(m, key) && b != []
    ensures HMGet(HMSet(m, [key, field, a, field, b]).store, [key, field]) == Array([Bulk(b)])
  {
    var v := [key, field, a, field, b];
    HMSetEffect(m, v);
    assert LastPairFor(v[1..], 1);
    assert StoredValue(HMSet(m, v).store, key, PairName(v[1..], 1)) == PairValue(v[1..], 1);
  }

  /** A reply array lists Bulk(f) exactly when f is one of the byte strings it was made from. */
  lemma BulksMember(bs: seq<Bytes>, f: Bytes)
    ensures Bulk(f) in Bulks(bs) <==> f in bs
  {
    if Bulk(f) in Bulks(bs) {
      var i :| 0 <= i < |bs| && Bulks(bs)[i] == Bulk(f);
      assert bs[i] == f;
    }
    if f in bs {
      var i :| 0 <= i < |bs| && bs[i] == f;
      assert Bulks(bs)[i] == Bulk(f);
    }
  }

  /** PutHash of a separator-free key with nothing in its scan range leaves exactly the fields of `hash` listed. */
  lemma PutHashOnEmptyLists(m: Store, key: Bytes, hash: map<Bytes, Bytes>)
    requires NoSeparator(key) && PrefixKeys(m, FieldPrefix(key)) == {}
    ensures forall f :: f in FieldNames(HashEntries(PutHashStore(m, key, hash), key)) <==> f in hash
  {
    var m' := PutHashStore(m, key, hash);
    FieldNamesComplete(m', key);
    forall f
      ensures EncodeFieldKey(key, f) in m' <==> f in hash
    {
      FieldPrefixOf(key, f);
      MetaKeyDisjoint(key, key, f);
      FieldKeysMember(key, hash.Keys, f);
      assert EncodeFieldKey(key, f) !in m by {
        assert EncodeFieldKey(key, f) !in PrefixKeys(m, FieldPrefix(key));
      }
    }
  }

  /**
   * An empty value is stored but point reads treat it as absent: `HSET k f ""` on a
   * separator-free key with no fields makes HGET reply nil and HEXISTS 0, while HLEN counts the
   * field and HKEYS lists it.
   */
  lemma EmptyValueListedButNotRead(m: Store, key: Bytes, f: Bytes)
    requires NoSeparator(key) && !WrongTypeKey(m, key) && PrefixKeys(m, FieldPrefix(key)) == {}
    ensures HGet(HSet(m, [key, f, []]).store, [key, f]) == Nil
    ensures HExists(HSet(m, [key, f, []]).store, [key, f]) == Integer(0)
    ensures HLen(HSet(m, [key, f, []]).store, [key]) == Integer(1)
    ensures HKeys(HSet(m, [key, f, []]).store, [key]) == Array([Bulk(f)])
  {
    var hash: map<Bytes, Bytes> := map[f := []];
    var m' := PutHashStore(m, key, hash);
    assert HSet(m, [key, f, []]).store == m';
    PutHashEffect(m, key, HashType, hash);
    OneFieldListed(m, key, f, []);
    assert Bulks([f]) == [Bulk(f)];
  }

  /** PutHash of one field on a separator-free key with no fields leaves exactly that field listed. */
  lemma OneFieldListed(m: Store, key: Bytes, f: Bytes, value: Bytes)
    requires NoSeparator(key) && PrefixKeys(m, FieldPrefix(key)) == {}
    ensures FieldNames(HashEntries(PutHashStore(m, key, map[f := value]), key)) == [f]
    ensures |PrefixKeys(PutHashStore(m, key, map[f := value]), FieldPrefix(key))| == 1
  {
    var hash := map[f := value];
    var m' := PutHashStore(m, key, hash);
    PutHashOnEmptyLists(m, key, hash);
    FieldNamesSorted(m', key);
    var names := FieldNames(HashEntries(m', key));
    assert forall g :: g in names <==> g == f by {
      assert hash.Keys == {f};
    }
    SortedSingleton(names, f);
  }

  /** A strictly sorted sequence whose only member is `f` is `[f]`. */
  lemma SortedSingleton(s: seq<Bytes>, f: Bytes)
    requires StrictlySorted(s) && forall g :: g in s <==> g == f
    ensures s == [f]
  {
    assert f in s;
    forall i | 0 <= i < |s|
      ensures s[i] == f
    {
      assert s[i] in s;
    }
    SortedHeadsDiffer(s);
  }

  /** The first two names of a strictly sorted sequence differ. */
  lemma SortedHeadsDiffer(s: seq<Bytes>)
    requires StrictlySorted(s)
    ensures |s| >= 2 ==> s[0] != s[1]
  {
    if |s| >= 2 {
      LessIrreflexive(s[0]);
    }
  }


  /**
   * HMSET of a separator-free key that had no fields, then HKEYS: exactly the fields the pairs
   * name are listed, and HGET of each gives the value of its last pair.
   */
  lemma HMSetThenHKeys(m: Store, v: seq<Bytes>)
    requires |v| >= 3 && |v| % 2 == 1 && !WrongTypeKey(m, v[0]) && NoSeparator(v[0])
    requires PrefixKeys(m, FieldPrefix(v[0])) == {}
    ensures HKeys(HMSet(m, v).store, v[0..1]).Array?
    ensures forall f :: Bulk(f) in HKeys(HMSet(m, v).store, v[0..1]).items <==> !NotNamed(v[1..], f)
    ensures forall q :: LastPairFor(v[1..], q) ==>
      HGet(HMSet(m, v).store, [v[0], PairName(v[1..], q)]) == ValueOrNil(PairValue(v[1..], q))
  {
    var key := v[0];
    PairedArguments(v);
    var hash := Pairs(v[1..]);
    var m' := PutHashStore(m, key, hash);
    assert HMSet(m, v) == Outcome(Ok, m');
    HMSetEffect(m, v);
    PutHashOnEmptyLists(m, key, hash);
    PairsDomain(v[1..]);
    var names := FieldNames(HashEntries(m', key));
    forall f
      ensures Bulk(f) in Bulks(names) <==> !NotNamed(v[1..], f)
    {
      BulksMember(names, f);
    }
  }

  // ---------------------------------------------------------------------------------------------
  // HINCRBY

  /** An increment or stored value that is not a base-10 int64 makes HINCRBY reply NotValidInt and write nothing. */
  lemma HIncrByRejects(m: Store, v: seq<Bytes>)
    requires |v| >= 3
    ensures ParseInt(v[2]).None? ==> HIncrBy(m, v) == Outcome(Error(NotValidInt), m)
    ensures (ParseInt(v[2]).Some? && !WrongTypeKey(m, v[0]) && StoredValue(m, v[0], v[1]) != []
      && ParseInt(StoredValue(m, v[0], v[1])).None?) ==> HIncrBy(m, v) == Outcome(Error(NotValidInt), m)
  {
  }

  /**
   * HINCRBY adds the increment to the stored value, or to 0 when the field has none, wrapping
   * like Go's int64; it replies with the sum and stores its decimal form, which parses back to
   * the reply, so a later HINCRBY reads exactly what this one wrote.
   */
  lemma HIncrByEffect(m: Store, key: Bytes, field: Bytes, increment: Bytes, d: int64, base: int64)
    requires ParseInt(increment) == Some(d) && !WrongTypeKey(m, key)
    requires if StoredValue(m, key, field) == [] then base == 0 else ParseInt(StoredValue(m, key, field)) == Some(base)
    ensures HIncrBy(m, [key, field, increment]).reply == Integer(Wrap64(base as int + d as int) as int)
    ensures InInt64(base as int + d as int) ==> HIncrBy(m, [key, field, increment]).reply == Integer(base as int + d as int)
    ensures StoredValue(HIncrBy(m, [key, field, increment]).store, key, field) == FormatInt(Wrap64(base as int + d as int))
    ensures ParseInt(StoredValue(HIncrBy(m, [key, field, increment]).store, key, field)) == Some(Wrap64(base as int + d as int))
    ensures KeyType(HIncrBy(m, [key, field, increment]).store, key) == Some(HashType)
    ensures forall g :: g != field ==>
      StoredValue(HIncrBy(m, [key, field, increment]).store, key, g) == StoredValue(m, key, g)
  {
    var n := Wrap64(base as int + d as int);
    PutHashEffect(m, key, HashType, map[field := FormatInt(n)]);
    PutHashFrame(m, key, HashType, map[field := FormatInt(n)]);
    FormatParseRoundTrip(n);
  }

  /** Two increments of a fresh field: the second reply is the wrapped sum of both. */
  lemma HIncrByTwice(m: Store, key: Bytes, field: Bytes, a: Bytes, b: Bytes, da: int64, db: int64)
    requires ParseInt(a) == Some(da) && ParseInt(b) == Some(db)
    requires !WrongTypeKey(m, key) && StoredValue(m, key, field) == []
    ensures HIncrBy(m, [key, field, a]).reply == Integer(da as int)
    ensures HIncrBy(HIncrBy(m, [key, field, a]).store, [key, field, b]).reply == Integer(Wrap64(da as int + db as int) as int)
  {
    var m1 := HIncrBy(m, [key, field, a]).store;
    HIncrByEffect(m, key, field, a, da, 0);
    assert StoredValue(m1, key, field) != [] by {
      assert FormatInt(da) != [];
    }
    HIncrByEffect(m1, key, field, b, db, da);
  }

  /** HINCRBY 5 then HINCRBY -2 on a fresh field replies 5 then 3; HINCRBY abc replies NotValidInt. */
  lemma HIncrByScenario(m: Store, key: Bytes, field: Bytes)
    requires !WrongTypeKey(m, key) && StoredValue(m, key, field) == []
    ensures HIncrBy(m, [key, field, [53]]).reply == Integer(5)
    ensures HIncrBy(HIncrBy(m, [key, field, [53]]).store, [key, field, [45, 50]]).reply == Integer(3)
    ensures HIncrBy(m, [key, field, [97, 98, 99]]) == Outcome(Error(NotValidInt), m)
  {
    var five: Bytes, two: Bytes, minusTwo: Bytes := [53], [50], [45, 50];
    assert DigitsValue(five) == 5 by {
      assert five[..0] == [];
    }
    assert ParseInt(five) == Some(5);
    assert minusTwo[1..] == two;
    assert DigitsValue(two) == 2 by {
      assert two[..0] == [];
    }
    assert ParseInt(minusTwo) == Some(-2);
    HIncrByTwice(m, key, field, five, minusTwo, 5, -2);
    assert !IsDigit(97);
  }

  // ---------------------------------------------------------------------------------------------
  // Reads

  /**
   * On a hash, HGETALL lists 2 elements per field, HKEYS's names at even positions and HVALS's
   * values after them, and HLEN counts the names HKEYS lists.
   */
  lemma ListingsAgree(m: Store, v: seq<Bytes>)
    requires |v| >= 1 && KeyType(m, v[0]) == Some(HashType)
    ensures HGetAll(m, v).Array? && HKeys(m, v).Array? && HVals(m, v).Array?
    ensures |HGetAll(m, v).items| == 2 * |HKeys(m, v).items| && |HVals(m, v).items| == |HKeys(m, v).items|
    ensures forall i :: 0 <= i < |HKeys(m, v).items| ==>
      HGetAll(m, v).items[2 * i] == HKeys(m, v).items[i] && HGetAll(m, v).items[2 * i + 1] == HVals(m, v).items[i]
    ensures HLen(m, v) == Integer(|HKeys(m, v).items|)
  {
  }

  /**
   * On a separator-free hash, HKEYS lists every stored field once, in ascending byte order, and
   * HGETALL pairs each with its stored value.
   */
  lemma HKeysExact(m: Store, v: seq<Bytes>)
    requires |v| >= 1 && KeyType(m, v[0]) == Some(HashType) && NoSeparator(v[0])
    ensures HKeys(m, v).Array? && HGetAll(m, v).Array?
    ensures forall i, j :: 0 <= i < j < |HKeys(m, v).items| ==>
      HKeys(m, v).items[i].Bulk? && Less(HKeys(m, v).items[i].bytes, HKeys(m, v).items[j].bytes)
    ensures forall f :: Bulk(f) in HKeys(m, v).items <==> EncodeFieldKey(v[0], f) in m
    ensures forall i :: 0 <= i < |HKeys(m, v).items| ==>
      HGetAll(m, v).items[2 * i + 1] == Bulk(StoredValue(m, v[0], HKeys(m, v).items[i].bytes))
  {
    var es := HashEntries(m, v[0]);
    var names := FieldNames(es);
    FieldNamesSorted(m, v[0]);
    FieldNamesComplete(m, v[0]);
    EntriesHoldStoredValues(m, v[0]);
    forall f
      ensures Bulk(f) in Bulks(names) <==> f in names
    {
      BulksMember(names, f);
    }
  }

  /**
   * On a hash, HEXISTS, HGET and HSTRLEN agree on whether a field has a value, and HMGET replies
   * one element per named field, in order, each what HGET of it replies.
   */
  lemma FieldReadsAgree(m: Store, v: seq<Bytes>)
    requires |v| >= 2 && KeyType(m, v[0]) == Some(HashType)
    ensures HExists(m, v) == Integer(1) <==> HGet(m, v).Bulk?
    ensures HGet(m, v).Bulk? <==> HStrLen(m, v) != Integer(0)
    ensures HMGet(m, v).Array? && |HMGet(m, v).items| == |v| - 1
    ensures forall i :: 1 <= i < |v| ==> HMGet(m, v).items[i - 1] == HGet(m, [v[0], v[i]])
  {
  }
}
