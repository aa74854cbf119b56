/**
 * The hash operations of rodis's LevelDB wrapper, over LevelDB modelled as an ordered map from
 * byte strings to byte strings. A write batch is one simultaneous map update; an iterator over a
 * key prefix is the ascending sequence of the keys carrying that prefix.
 */
module Storage {
  import opened Wrappers
  import opened ByteOrder
  import opened Encoding

  /** The contents of the LevelDB instance. */
  type Store = map<Bytes, Bytes>

  /** One (field name, value) pair of a hash. */
  datatype Field = Field(key: Bytes, value: Bytes)

  /** ldb.get: the value stored at `k`, or the empty string when there is none. */
  function Lookup(m: Store, k: Bytes): Bytes
  {
    if k in m then m[k] else []
  }

  /** What a point get of field `field` of record `key` sees. */
  function StoredValue(m: Store, key: Bytes, field: Bytes): Bytes
  {
    Lookup(m, EncodeFieldKey(key, field))
  }

  /** DB.Has: None when the record has no metadata entry, else the type tag stored there. */
  function KeyType(m: Store, key: Bytes): Option<byte>
  {
    if EncodeMetaKey(key) in m then Some(DecodeMetadata(m[EncodeMetaKey(key)])) else None
  }

  /** The keys util.BytesPrefix(p) selects. */
  function PrefixKeys(m: Store, p: Bytes): set<Bytes>
  {
    set k | k in m && p <= k
  }

  /** The keys an iterator over util.BytesPrefix(p) visits, in visiting order. */
  ghost function ScanKeys(m: Store, p: Bytes): seq<Bytes>
  {
    SortedKeys(PrefixKeys(m, p))
  }

  /** The (decoded field, value) pairs an iteration over the keys `ks` produces. */
  function EntriesOf(m: Store, ks: seq<Bytes>): seq<Field>
    requires forall k :: k in ks ==> k in m
  {
    seq(|ks|, i requires 0 <= i < |ks| => Field(DecodeField(ks[i]), m[ks[i]]))
  }

  /** All entries of record `key` as its prefix scan yields them. */
  ghost function HashEntries(m: Store, key: Bytes): seq<Field>
  {
    EntriesOf(m, ScanKeys(m, FieldPrefix(key)))
  }

  function FieldNames(fs: seq<Field>): seq<Bytes>
  {
    seq(|fs|, i requires 0 <= i < |fs| => fs[i].key)
  }

  function FieldValues(fs: seq<Field>): seq<Bytes>
  {
    seq(|fs|, i requires 0 <= i < |fs| => fs[i].value)
  }

  /** Filling a Go map from a sequence of pairs in order: a later pair overwrites an earlier one. */
  function ToMap(fs: seq<Field>): map<Bytes, Bytes>
  {
    if fs == [] then map[]
    else ToMap(fs[..|fs| - 1])[fs[|fs| - 1].key := fs[|fs| - 1].value]
  }

  /** The value-entry keys of the given fields of record `key`. */
  function FieldKeys(key: Bytes, fields: set<Bytes>): set<Bytes>
  {
    set f | f in fields :: EncodeFieldKey(key, f)
  }

  /** Adding one field adds exactly its field key. */
  lemma FieldKeysAdd(key: Bytes, fields: set<Bytes>, f: Bytes)
    ensures FieldKeys(key, fields + {f}) == FieldKeys(key, fields) + {EncodeFieldKey(key, f)}
  {
  }

  /** A batch that holds the metadata entry and the entries of the fields in `done`, and nothing else. */
  ghost predicate PartialBatch(key: Bytes, tipe: byte, hash: map<Bytes, Bytes>, done: set<Bytes>, batch: Store)
  {
    && done <= hash.Keys
    && batch.Keys == {EncodeMetaKey(key)} + FieldKeys(key, done)
    && batch[EncodeMetaKey(key)] == EncodeMetadata(tipe)
    && forall g :: g in done ==> batch[EncodeFieldKey(key, g)] == hash[g]
  }

  /** Adding the entry of one more field keeps the batch partial, with that field done. */
  lemma PartialBatchGrows(key: Bytes, tipe: byte, hash: map<Bytes, Bytes>, done: set<Bytes>, batch: Store, f: Bytes)
    requires PartialBatch(key, tipe, hash, done, batch) && f in hash
    ensures PartialBatch(key, tipe, hash, done + {f}, batch[EncodeFieldKey(key, f) := hash[f]])
  {
    MetaKeyDisjoint(key, key, f);
    FieldKeysAdd(key, done, f);
  }

  /** The batch with only the metadata entry is partial, with no field done. */
  lemma PartialBatchStart(key: Bytes, tipe: byte, hash: map<Bytes, Bytes>)
    ensures PartialBatch(key, tipe, hash, {}, map[EncodeMetaKey(key) := EncodeMetadata(tipe)])
  {
    assert FieldKeys(key, {}) == {};
  }

  /** A partial batch with every field done is the record's whole batch. */
  lemma PartialBatchComplete(key: Bytes, tipe: byte, hash: map<Bytes, Bytes>, done: set<Bytes>, batch: Store)
    requires PartialBatch(key, tipe, hash, done, batch) && hash.Keys - done == {}
    ensures batch == HashBatch(key, tipe, hash)
  {
    forall g | g in hash.Keys
      ensures g in done
    {
      assert g !in hash.Keys - done;
    }
    assert done == hash.Keys;
    HashBatchExt(key, tipe, hash, batch);
  }

  /** The field keys listed one per field, in order, are FieldKeys of the fields. */
  lemma FieldKeysOfList(key: Bytes, fields: seq<Bytes>, keys: seq<Bytes>)
    requires |keys| == |fields|
    requires forall j :: 0 <= j < |fields| ==> keys[j] == EncodeFieldKey(key, fields[j])
    ensures (set k | k in keys) == FieldKeys(key, set f | f in fields)
  {
    forall k | k in keys ensures k in FieldKeys(key, set f | f in fields) {
      var j :| 0 <= j < |keys| && keys[j] == k;
    }
    forall k | k in FieldKeys(key, set f | f in fields) ensures k in keys {
      var f :| f in fields && k == EncodeFieldKey(key, f);
      var j :| 0 <= j < |fields| && fields[j] == f;
      assert keys[j] == k;
    }
  }

  /** Every key of FieldKeys(key, fields) is the field key of the name that follows the record's prefix. */
  lemma FieldKeysInverse(key: Bytes, fields: set<Bytes>)
    ensures forall k :: k in FieldKeys(key, fields) ==>
      |k| >= |key| + 2 && k[|key| + 2..] in fields && k == EncodeFieldKey(key, k[|key| + 2..])
  {
  }

  /** The field entries PutHash writes: one per field of `hash`. */
  function FieldBatch(key: Bytes, hash: map<Bytes, Bytes>): (r: Store)
    ensures r.Keys == FieldKeys(key, hash.Keys)
  {
    FieldKeysInverse(key, hash.Keys);
    map k | k in FieldKeys(key, hash.Keys) :: hash[k[|key| + 2..]]
  }

  /** The batch PutHash writes: the metadata entry and one entry per field of `hash`. */
  function HashBatch(key: Bytes, tipe: byte, hash: map<Bytes, Bytes>): Store
  {
    FieldBatch(key, hash)[EncodeMetaKey(key) := EncodeMetadata(tipe)]
  }

  /** A batch that holds the metadata entry and exactly the fields of `hash` is PutHash's batch. */
  lemma HashBatchExt(key: Bytes, tipe: byte, hash: map<Bytes, Bytes>, batch: Store)
    requires batch.Keys == {EncodeMetaKey(key)} + FieldKeys(key, hash.Keys)
    requires batch[EncodeMetaKey(key)] == EncodeMetadata(tipe)
    requires forall g :: g in hash ==> batch[EncodeFieldKey(key, g)] == hash[g]
    ensures batch == HashBatch(key, tipe, hash)
  {
    var b := HashBatch(key, tipe, hash);
    FieldKeysInverse(key, hash.Keys);
    forall k | k in batch ensures k in b && b[k] == batch[k] {
      if k != EncodeMetaKey(key) {
        assert batch[EncodeFieldKey(key, k[|key| + 2..])] == hash[k[|key| + 2..]];
      }
    }
    assert batch.Keys == b.Keys;
  }

  /** The store after DeleteFields: the fields go, then the metadata too if no field entry is left. */
  function AfterDeleteFields(m: Store, key: Bytes, fields: seq<Bytes>): Store
  {
    var pruned := m - FieldKeys(key, set f | f in fields);
    if PrefixKeys(pruned, FieldPrefix(key)) == {} then pruned - {EncodeMetaKey(key)} else pruned
  }

  /** The store after DeleteHash: the metadata entry and every entry in the record's scan range go. */
  function AfterDeleteHash(m: Store, key: Bytes): Store
  {
    m - ({EncodeMetaKey(key)} + PrefixKeys(m, FieldPrefix(key)))
  }

  /** PutHash's batch: the metadata entry, then the entry of each field of `hash`, one at a time. */
  method BuildHashBatch(key: Bytes, tipe: byte, hash: map<Bytes, Bytes>) returns (batch: Store)
    ensures batch == HashBatch(key, tipe, hash)
  {
    batch := map[EncodeMetaKey(key) := EncodeMetadata(tipe)];
    var rest := hash.Keys;
    ghost var done: set<Bytes> := {};
    PartialBatchStart(key, tipe, hash);
    while rest != {}
      invariant rest == hash.Keys - done
      invariant PartialBatch(key, tipe, hash, done, batch)
      decreases |rest|
    {
      var f :| f in rest;
      PartialBatchGrows(key, tipe, hash, done, batch, f);
      batch := batch[EncodeFieldKey(key, f) := hash[f]];
      rest := rest - {f};
      done := done + {f};
    }
    PartialBatchComplete(key, tipe, hash, done, batch);
  }

  /** The LevelDB handle a database wraps. */
  class LevelDB {
    var data: Store

    constructor ()
      ensures data == map[]
    {
      data := map[];
    }

    /** ldb.get */
    method Get(k: Bytes) returns (v: Bytes)
      ensures v == Lookup(data, k)
    {
      v := if k in data then data[k] else [];
    }

    /** db.Write of a batch of puts, applied all at once. */
    method Write(batch: Store)
      modifies this
      ensures data == old(data) + batch
    {
      data := data + batch;
    }

    /** ldb.delete: one batch removing every listed key that is present. */
    method Delete(keys: seq<Bytes>)
      modifies this
      ensures data == old(data) - (set k | k in keys)
    {
      data := data - (set k | k in keys);
    }

    /** An iterator over util.BytesPrefix(prefix), run to the end: the matching keys in ascending order. */
    method Scan(prefix: Bytes) returns (keys: seq<Bytes>)
      ensures keys == ScanKeys(data, prefix)
    {
      var rest := set k | k in data && prefix <= k;
      ghost var all := rest;
      keys := [];
      while rest != {}
        invariant rest <= all
        invariant forall k :: k in keys <==> k in all && k !in rest
        invariant StrictlySorted(keys)
        invariant forall i, k :: 0 <= i < |keys| && k in rest ==> Less(keys[i], k)
        decreases |rest|
      {
        var least := Least(rest);
        keys := keys + [least];
        rest := rest - {least};
      }
      SortedUnique(keys, SortedKeys(all));
    }

    /** DB.Has: whether the record exists, and the type tag its metadata holds. */
    method Has(key: Bytes) returns (found: bool, tipe: byte)
      ensures KeyType(data, key) == if found then Some(tipe) else None
    {
      found := EncodeMetaKey(key) in data;
      tipe := if found then DecodeMetadata(data[EncodeMetaKey(key)]) else 0;
    }

    /** DeleteHash: removes the metadata entry and every field entry of the record in one batch. */
    method DeleteHash(key: Bytes)
      modifies this
      ensures data == AfterDeleteHash(old(data), key)
    {
      var keys := [EncodeMetaKey(key)];
      var scanned := Scan(FieldPrefix(key));
      for i := 0 to |scanned|
        invariant keys == [EncodeMetaKey(key)] + scanned[..i]
        modifies {}
      {
        keys := keys + [scanned[i]];
      }
      assert scanned[..|scanned|] == scanned;
      assert (set k | k in keys) == {EncodeMetaKey(key)} + PrefixKeys(data, FieldPrefix(key));
      Delete(keys);
    }

    /** PutHash: writes the metadata entry and every field of `hash` in one batch. */
    method PutHash(key: Bytes, tipe: byte, hash: map<Bytes, Bytes>)
      modifies this
      ensures data == old(data) + HashBatch(key, tipe, hash)
    {
      var batch := BuildHashBatch(key, tipe, hash);
      Write(batch);
    }

    /** GetHash: the record's fields as a map, filled in scan order. */
    method GetHash(key: Bytes) returns (hash: map<Bytes, Bytes>)
      ensures hash == ToMap(HashEntries(data, key))
    {
      hash := map[];
      var scanned := Scan(FieldPrefix(key));
      ghost var entries := EntriesOf(data, scanned);
      for i := 0 to |scanned|
        invariant hash == ToMap(entries[..i])
      {
        var field := DecodeField(scanned[i]);
        var value := data[scanned[i]];
        assert entries[..i + 1][..i] == entries[..i];
        hash := hash[field := value];
      }
      assert entries[..|scanned|] == entries;
    }

    /** GetHashAsArray: the record's fields in scan order, that is ascending store-key order. */
    method GetHashAsArray(key: Bytes) returns (hash: seq<Field>)
      ensures hash == HashEntries(data, key)
    {
      hash := [];
      var scanned := Scan(FieldPrefix(key));
      ghost var entries := EntriesOf(data, scanned);
      for i := 0 to |scanned|
        invariant hash == entries[..i]
      {
        var field := DecodeField(scanned[i]);
        var value := data[scanned[i]];
        hash := hash + [Field(field, value)];
      }
    }

    /** DeleteFields: removes the named fields, then the metadata entry if the record has no field left. */
    method DeleteFields(key: Bytes, fields: seq<Bytes>)
      modifies this
      ensures data == AfterDeleteFields(old(data), key, fields)
    {
      var keys := [];
      for i := 0 to |fields|
        invariant |keys| == i
        invariant forall j :: 0 <= j < i ==> keys[j] == EncodeFieldKey(key, fields[j])
        modifies {}
      {
        keys := keys + [EncodeFieldKey(key, fields[i])];
      }
      FieldKeysOfList(key, fields, keys);
      Delete(keys);
      var remaining := Scan(FieldPrefix(key));
      if |remaining| == 0 {
        Delete([EncodeMetaKey(key)]);
      }
    }

    /** GetFields: each requested field mapped to its stored value, or to empty when it has none. */
    method GetFields(key: Bytes, fields: seq<Bytes>) returns (hash: map<Bytes, Bytes>)
      ensures hash == map f | f in fields :: StoredValue(data, key, f)
    {
      hash := map[];
      for i := 0 to |fields|
        invariant hash == map f | f in fields[..i] :: StoredValue(data, key, f)
      {
        var fieldValue := Get(EncodeFieldKey(key, fields[i]));
        assert fields[..i + 1] == fields[..i] + [fields[i]];
        hash := hash[fields[i] := fieldValue];
      }
      assert fields[..|fields|] == fields;
    }

    /** GetFieldNames: the record's field names in scan order. */
    method GetFieldNames(key: Bytes) returns (fields: seq<Bytes>)
      ensures fields == FieldNames(HashEntries(data, key))
    {
      fields := [];
      var scanned := Scan(FieldPrefix(key));
      ghost var names := FieldNames(EntriesOf(data, scanned));
      for i := 0 to |scanned|
        invariant fields == names[..i]
      {
        fields := fields + [DecodeField(scanned[i])];
      }
      assert names[..|scanned|] == names;
    }

    /** GetFieldsAsArray: one (field, stored value or empty) pair per requested field, in request order. */
    method GetFieldsAsArray(key: Bytes, fields: seq<Bytes>) returns (hash: seq<Field>)
      ensures |hash| == |fields|
      ensures forall i :: 0 <= i < |fields| ==> hash[i] == Field(fields[i], StoredValue(data, key, fields[i]))
    {
      hash := [];
      for i := 0 to |fields|
        invariant |hash| == i
        invariant forall j :: 0 <= j < i ==> hash[j] == Field(fields[j], StoredValue(data, key, fields[j]))
      {
        var value := Get(EncodeFieldKey(key, fields[i]));
        hash := hash + [Field(fields[i], value)];
      }
    }
  }
}
