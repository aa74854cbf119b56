/**
 * How rodis lays a hash out in LevelDB's flat key space.
 *
 * A record key `k` has one metadata entry at `MetaPrefix k` holding its type tag,
 * and one entry per field `f` at `ValuePrefix k Separator f` holding the field's value.
 */
module Encoding {
  import opened ByteOrder

  /** Namespace byte of metadata entries. */
  const MetaPrefix: byte := 43    // '+'
  /** Namespace byte of value entries (the "-Key|Field" layout). */
  const ValuePrefix: byte := 45   // '-'
  /** Byte between a record key and a field name; field decoding searches for '|' literally. */
  const Separator: byte := 124    // '|'

  /** encodeMetaKey: the metadata entry's key. */
  function EncodeMetaKey(key: Bytes): (r: Bytes)
    ensures |r| == |key| + 1 && r[0] == MetaPrefix && r[1..] == key
  {
    [MetaPrefix] + key
  }

  /** encodeMetadata: the metadata entry's value, a single type tag. */
  function EncodeMetadata(tipe: byte): (r: Bytes)
    ensures DecodeMetadata(r) == tipe
  {
    [tipe]
  }

  /** The type tag a metadata value holds (its first byte). */
  function DecodeMetadata(value: Bytes): byte
  {
    if value == [] then 0 else value[0]
  }

  /** encodeFieldKey: ValuePrefix ++ key ++ Separator ++ field. */
  function EncodeFieldKey(key: Bytes, field: Bytes): (r: Bytes)
    ensures |r| == |key| + |field| + 2
    ensures r[0] == ValuePrefix && r[1..|key| + 1] == key && r[|key| + 1] == Separator
    ensures r[|key| + 2..] == field
  {
    [ValuePrefix] + key + [Separator] + field
  }

  /** encodeFieldKey(key, nil): the prefix all of a record's field entries share. */
  function FieldPrefix(key: Bytes): Bytes
  {
    EncodeFieldKey(key, [])
  }

  lemma FieldKeyExtendsPrefix(key: Bytes, field: Bytes)
    ensures EncodeFieldKey(key, field) == FieldPrefix(key) + field
  {
  }

  /** strings.IndexByte: position of the first occurrence of `b` in `s`, or -1. */
  function IndexByte(s: Bytes, b: byte): (r: int)
    ensures -1 <= r < |s|
    ensures r == -1 <==> b !in s
    ensures 0 <= r ==> s[r] == b && b !in s[..r]
  {
    if s == [] then -1
    else if s[0] == b then 0
    else
      var i := IndexByte(s[1..], b);
      assert s[1..] == s[1..][..|s| - 1];
      if i < 0 then -1
      else
        assert s[..i + 1] == [s[0]] + s[1..][..i];
        i + 1
  }

  /** The field name of a value-entry key: everything after its first '|'. */
  function DecodeField(k: Bytes): Bytes
  {
    k[IndexByte(k, Separator) + 1..]
  }

  /** The assumption decoding rests on: record keys never contain the separator. */
  predicate NoSeparator(key: Bytes)
  {
    Separator !in key
  }

  /** One prefix scan reaches every field of a record. */
  lemma FieldPrefixOf(key: Bytes, field: Bytes)
    ensures FieldPrefix(key) <= EncodeFieldKey(key, field)
  {
    var p, r := FieldPrefix(key), EncodeFieldKey(key, field);
    assert forall i :: 0 <= i < |p| ==> p[i] == r[i] by {
      forall i | 0 <= i < |p| ensures p[i] == r[i] {
        if 1 <= i < |key| + 1 {
          assert p[i] == p[1..|key| + 1][i - 1] && r[i] == r[1..|key| + 1][i - 1];
        }
      }
    }
  }

  /** Every key in a record's scan range is that record's field key for the decoded name. */
  lemma {:induction false} PrefixedIsFieldKey(key: Bytes, k: Bytes)
    requires NoSeparator(key) && FieldPrefix(key) <= k
    ensures k == EncodeFieldKey(key, DecodeField(k))
    ensures DecodeField(k) == k[|key| + 2..]
  {
    var p := FieldPrefix(key);
    assert k[..|p|] == p;
    assert k[0] == ValuePrefix && k[|key| + 1] == Separator;
    assert k[1..|key| + 1] == key by {
      assert k[1..|key| + 1] == p[1..|key| + 1];
    }
    assert Separator !in k[..|key| + 1] by {
      assert k[..|key| + 1] == [ValuePrefix] + key;
    }
    var i := IndexByte(k, Separator);
    assert forall j :: 0 <= j < |key| + 1 ==> k[j] != Separator by {
      forall j | 0 <= j < |key| + 1 ensures k[j] != Separator {
        assert k[j] == k[..|key| + 1][j];
      }
    }
    assert forall j :: 0 <= j < i ==> k[j] != Separator by {
      forall j | 0 <= j < i ensures k[j] != Separator {
        assert k[j] == k[..i][j];
      }
    }
    assert i == |key| + 1;
    assert k == [ValuePrefix] + key + [Separator] + k[|key| + 2..] by {
      assert k == k[..|key| + 2] + k[|key| + 2..];
      assert k[..|key| + 2] == [ValuePrefix] + key + [Separator];
    }
  }

  /** Decode round trip: the bytes after the first '|' of a field key are the field. */
  lemma DecodeFieldKey(key: Bytes, field: Bytes)
    requires NoSeparator(key)
    ensures DecodeField(EncodeFieldKey(key, field)) == field
  {
    FieldPrefixOf(key, field);
    PrefixedIsFieldKey(key, EncodeFieldKey(key, field));
  }

  /** Distinct fields of one record have distinct keys, and distinct records distinct meta keys. */
  lemma EncodingInjective(key: Bytes, f1: Bytes, f2: Bytes, key2: Bytes)
    ensures EncodeFieldKey(key, f1) == EncodeFieldKey(key, f2) ==> f1 == f2
    ensures EncodeMetaKey(key) == EncodeMetaKey(key2) ==> key == key2
  {
  }

  /** Metadata entries never collide with, nor fall into the scan range of, field entries. */
  lemma MetaKeyDisjoint(key: Bytes, key2: Bytes, field: Bytes)
    ensures EncodeMetaKey(key) != EncodeFieldKey(key2, field)
    ensures !(FieldPrefix(key2) <= EncodeMetaKey(key))
  {
    assert EncodeMetaKey(key)[0] != FieldPrefix(key2)[0];
  }

  /**
   * Why records must not contain '|': the field of record "a|b" named "c" is decoded as "b|c",
   * and it lies inside the scan range of record "a".
   */
  lemma SeparatorInKeyMisdecodes()
    ensures var k := EncodeFieldKey([97, Separator, 98], [99]);
      DecodeField(k) == [98, Separator, 99] && FieldPrefix([97]) <= k
  {
    var k := EncodeFieldKey([97, Separator, 98], [99]);
    assert k == [ValuePrefix, 97, Separator, 98, Separator, 99];
    assert IndexByte(k, Separator) == 2 by {
      assert k[2] == Separator && Separator !in k[..2];
    }
  }
}
