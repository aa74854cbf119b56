/** What the hash operations of the storage layer guarantee about the store and about each other. */
module StorageProperties {
  import opened Wrappers
  import opened ByteOrder
  import opened Encoding
  import opened Storage

  /** A field key of the record lies in FieldKeys(key, fields) exactly when its name is one of the fields. */
  lemma FieldKeysMember(key: Bytes, fields: set<Bytes>, g: Bytes)
    ensures EncodeFieldKey(key, g) in FieldKeys(key, fields) <==> g in fields
  {
    if EncodeFieldKey(key, g) in FieldKeys(key, fields) {
      var f :| f in fields && EncodeFieldKey(key, f) == EncodeFieldKey(key, g);
      EncodingInjective(key, f, g, key);
    }
  }

  /** After PutHash the metadata entry holds the type and every field of `hash` holds its value. */
  lemma PutHashEffect(m: Store, key: Bytes, tipe: byte, hash: map<Bytes, Bytes>)
    ensures KeyType(m + HashBatch(key, tipe, hash), key) == Some(tipe)
    ensures forall f :: f in hash ==> StoredValue(m + HashBatch(key, tipe, hash), key, f) == hash[f]
  {
    var batch := HashBatch(key, tipe, hash);
    FieldKeysInverse(key, hash.Keys);
    forall f | f in hash
      ensures StoredValue(m + batch, key, f) == hash[f]
    {
      MetaKeyDisjoint(key, key, f);
      assert EncodeFieldKey(key, f)[|key| + 2..] == f;
      assert EncodeFieldKey(key, f) in FieldBatch(key, hash);
    }
  }

  /** PutHash leaves every other entry as it was, the record's other fields included. */
  lemma PutHashFrame(m: Store, key: Bytes, tipe: byte, hash: map<Bytes, Bytes>)
    ensures forall g :: g !in hash ==> StoredValue(m + HashBatch(key, tipe, hash), key, g) == StoredValue(m, key, g)
    ensures forall k :: k != EncodeMetaKey(key) && k !in FieldKeys(key, hash.Keys) ==>
      (k in m + HashBatch(key, tipe, hash) <==> k in m) && Lookup(m + HashBatch(key, tipe, hash), k) == Lookup(m, k)
  {
    var batch := HashBatch(key, tipe, hash);
    assert batch.Keys == FieldKeys(key, hash.Keys) + {EncodeMetaKey(key)};
    forall g | g !in hash
      ensures StoredValue(m + batch, key, g) == StoredValue(m, key, g)
    {
      MetaKeyDisjoint(key, key, g);
      FieldKeysMember(key, hash.Keys, g);
    }
  }

  /**
   * After DeleteFields no entry of a named field is left, every other field and entry is present
   * exactly when it was and holds what it held, and the metadata entry is gone exactly when no
   * entry remains in the record's scan range.
   */
  lemma DeleteFieldsEffect(m: Store, key: Bytes, fields: seq<Bytes>)
    ensures forall f :: f in fields ==> EncodeFieldKey(key, f) !in AfterDeleteFields(m, key, fields)
    ensures forall f :: f in fields ==> StoredValue(AfterDeleteFields(m, key, fields), key, f) == []
    ensures forall g :: g !in fields ==> StoredValue(AfterDeleteFields(m, key, fields), key, g) == StoredValue(m, key, g)
    ensures KeyType(AfterDeleteFields(m, key, fields), key) ==
      if PrefixKeys(AfterDeleteFields(m, key, fields), FieldPrefix(key)) == {} then None else KeyType(m, key)
    ensures forall k :: k != EncodeMetaKey(key) && k !in FieldKeys(key, set f | f in fields) ==>
      (k in AfterDeleteFields(m, key, fields) <==> k in m) && Lookup(AfterDeleteFields(m, key, fields), k) == Lookup(m, k)
  {
    var m' := AfterDeleteFields(m, key, fields);
    var pruned := m - FieldKeys(key, set f | f in fields);
    forall k | k in pruned && FieldPrefix(key) <= k
      ensures k in m'
    {
      assert k != EncodeMetaKey(key) by {
        assert EncodeMetaKey(key)[0] != FieldPrefix(key)[0];
      }
    }
    assert PrefixKeys(m', FieldPrefix(key)) == PrefixKeys(pruned, FieldPrefix(key));
    forall g | g !in fields
      ensures StoredValue(m', key, g) == StoredValue(m, key, g)
    {
      MetaKeyDisjoint(key, key, g);
      FieldKeysMember(key, (set f | f in fields), g);
    }
  }

  /** After DeleteHash the record has no metadata, no field and an empty scan; every entry outside it stays, unchanged. */
  lemma DeleteHashEffect(m: Store, key: Bytes)
    ensures KeyType(AfterDeleteHash(m, key), key) == None
    ensures PrefixKeys(AfterDeleteHash(m, key), FieldPrefix(key)) == {}
    ensures HashEntries(AfterDeleteHash(m, key), key) == []
    ensures forall f :: StoredValue(AfterDeleteHash(m, key), key, f) == []
    ensures forall k :: k != EncodeMetaKey(key) && !(FieldPrefix(key) <= k) ==>
      (k in AfterDeleteHash(m, key) <==> k in m) && Lookup(AfterDeleteHash(m, key), k) == Lookup(m, k)
  {
    var m' := AfterDeleteHash(m, key);
    assert PrefixKeys(m', FieldPrefix(key)) == {};
    forall f ensures StoredValue(m', key, f) == [] {
      FieldPrefixOf(key, f);
    }
  }

  /** One prefix scan reaches every stored field of the record. */
  lemma ScanReachesEveryField(m: Store, key: Bytes, field: Bytes)
    requires EncodeFieldKey(key, field) in m
    ensures EncodeFieldKey(key, field) in ScanKeys(m, FieldPrefix(key))
  {
    FieldPrefixOf(key, field);
  }

  /** For a key without a separator byte, each scanned key is the record's prefix followed by the name decoded from it. */
  lemma ScanKeysDecode(m: Store, key: Bytes)
    requires NoSeparator(key)
    ensures forall i :: 0 <= i < |ScanKeys(m, FieldPrefix(key))| ==>
      ScanKeys(m, FieldPrefix(key))[i] == FieldPrefix(key) + HashEntries(m, key)[i].key
  {
    var ks := ScanKeys(m, FieldPrefix(key));
    forall i | 0 <= i < |ks|
      ensures ks[i] == FieldPrefix(key) + HashEntries(m, key)[i].key
    {
      assert ks[i] in PrefixKeys(m, FieldPrefix(key)) by {
        assert ks[i] in ks;
      }
      PrefixedIsFieldKey(key, ks[i]);
      FieldKeyExtendsPrefix(key, DecodeField(ks[i]));
    }
  }

  /**
   * For a key without a separator byte, the field names the scan yields are strictly ascending,
   * hence distinct, and there is one per entry of the scan range.
   */
  lemma FieldNamesSorted(m: Store, key: Bytes)
    requires NoSeparator(key)
    ensures |HashEntries(m, key)| == |PrefixKeys(m, FieldPrefix(key))|
    ensures StrictlySorted(FieldNames(HashEntries(m, key)))
  {
    var p := FieldPrefix(key);
    var ks := ScanKeys(m, p);
    var names := FieldNames(HashEntries(m, key));
    ScanKeysDecode(m, key);
    forall i, j | 0 <= i < j < |names|
      ensures Less(names[i], names[j])
    {
      assert Less(ks[i], ks[j]);
      LessCommonPrefix(p, names[i], names[j]);
    }
  }

  /** For a key without a separator byte, every entry the scan yields carries its field's stored value. */
  lemma EntriesHoldStoredValues(m: Store, key: Bytes)
    requires NoSeparator(key)
    ensures forall i :: 0 <= i < |HashEntries(m, key)| ==>
      HashEntries(m, key)[i].value == StoredValue(m, key, HashEntries(m, key)[i].key)
  {
    var ks := ScanKeys(m, FieldPrefix(key));
    var es := HashEntries(m, key);
    ScanKeysDecode(m, key);
    forall i | 0 <= i < |es|
      ensures es[i].value == StoredValue(m, key, es[i].key)
    {
      assert ks[i] in ks;
      assert es[i] == Field(DecodeField(ks[i]), m[ks[i]]);
      FieldKeyExtendsPrefix(key, es[i].key);
      assert EncodeFieldKey(key, es[i].key) == ks[i];
    }
  }

  /** For a key without a separator byte, the scan yields the name of every stored field of the record, and only those. */
  lemma FieldNamesComplete(m: Store, key: Bytes)
    requires NoSeparator(key)
    ensures forall f :: f in FieldNames(HashEntries(m, key)) <==> EncodeFieldKey(key, f) in m
  {
    var ks := ScanKeys(m, FieldPrefix(key));
    var names := FieldNames(HashEntries(m, key));
    ScanKeysDecode(m, key);
    forall f
      ensures f in names <==> EncodeFieldKey(key, f) in m
    {
      FieldKeyExtendsPrefix(key, f);
      if EncodeFieldKey(key, f) in m {
        ScanReachesEveryField(m, key, f);
        var i :| 0 <= i < |ks| && ks[i] == EncodeFieldKey(key, f);
        assert names[i] == f;
      }
      if f in names {
        var i :| 0 <= i < |names| && names[i] == f;
        assert ks[i] in ks;
      }
    }
  }

  /** The keys of ToMap(fs) are the field names of fs. */
  lemma {:induction false} ToMapDomain(fs: seq<Field>)
    ensures forall f :: f in ToMap(fs) <==> f in FieldNames(fs)
    decreases |fs|
  {
    if fs != [] {
      var init := fs[..|fs| - 1];
      ToMapDomain(init);
      assert FieldNames(fs) == FieldNames(init) + [fs[|fs| - 1].key];
    }
  }

  /** An entry whose name no later entry repeats survives in ToMap. */
  lemma {:induction false} ToMapLastWins(fs: seq<Field>, i: nat)
    requires i < |fs|
    requires forall j :: i < j < |fs| ==> fs[j].key != fs[i].key
    ensures fs[i].key in ToMap(fs) && ToMap(fs)[fs[i].key] == fs[i].value
    decreases |fs|
  {
    if i < |fs| - 1 {
      ToMapLastWins(fs[..|fs| - 1], i);
    }
  }

  /**
   * GetHash, for a key without a separator byte, holds exactly the record's stored fields, each
   * with its stored value: the same pairs GetHashAsArray lists.
   */
  lemma GetHashExact(m: Store, key: Bytes)
    requires NoSeparator(key)
    ensures forall f :: f in ToMap(HashEntries(m, key)) <==> EncodeFieldKey(key, f) in m
    ensures forall f :: f in ToMap(HashEntries(m, key)) ==> ToMap(HashEntries(m, key))[f] == StoredValue(m, key, f)
  {
    var es := HashEntries(m, key);
    FieldNamesSorted(m, key);
    EntriesHoldStoredValues(m, key);
    FieldNamesComplete(m, key);
    ToMapDomain(es);
    forall f | f in ToMap(es)
      ensures ToMap(es)[f] == StoredValue(m, key, f)
    {
      var i :| 0 <= i < |es| && FieldNames(es)[i] == f;
      forall j | i < j < |es|
        ensures es[j].key != es[i].key
      {
        assert Less(FieldNames(es)[i], FieldNames(es)[j]);
        LessIrreflexive(es[i].key);
      }
      ToMapLastWins(es, i);
    }
  }
}
