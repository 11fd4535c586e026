/**
 * A Ruby `Hash` with string keys. Ruby hashes remember the order in which
 * keys were first inserted and iterate in that order; `make_bigram` lays the
 * words out in that order, so the model keeps it.
 */
module Tables {

  datatype Table<V> = Table(keys: seq<string>, entries: map<string, V>)

  /** The key order lists exactly the keys of the entries. */
  predicate TableOk<V>(t: Table<V>)
  {
    (forall i :: 0 <= i < |t.keys| ==> t.keys[i] in t.entries) &&
    (forall k :: k in t.entries ==> k in t.keys)
  }

  /** No key is listed twice. */
  predicate Distinct<V>(t: Table<V>)
  {
    forall i, j :: 0 <= i < j < |t.keys| ==> t.keys[i] != t.keys[j]
  }

  /** `{}` */
  function Empty<V>(): (t: Table<V>)
    ensures TableOk(t) && Distinct(t) && t.keys == []
  {
    Table([], map[])
  }

  /** `h[k] = v` */
  function Put<V>(t: Table<V>, k: string, v: V): (r: Table<V>)
    requires TableOk(t)
  {
    if k in t.entries then Table(t.keys, t.entries[k := v]) else Table(t.keys + [k], t.entries[k := v])
  }

  /**
   * Writing a key stores the value under it and keeps every other entry;
   * a key already present keeps its place, a new key goes last.
   */
  lemma PutSpec<V>(t: Table<V>, k: string, v: V)
    requires TableOk(t)
    ensures var r := Put(t, k, v);
      TableOk(r) && k in r.entries && r.entries[k] == v &&
      (forall j :: j in t.entries && j != k ==> j in r.entries && r.entries[j] == t.entries[j]) &&
      (k in t.entries ==> r.keys == t.keys) &&
      (k !in t.entries ==> r.keys == t.keys + [k])
  {
  }

  /** Writing a key never lists a key twice. */
  lemma PutDistinct<V>(t: Table<V>, k: string, v: V)
    requires TableOk(t) && Distinct(t)
    ensures Distinct(Put(t, k, v))
  {
    var r := Put(t, k, v);
    if k !in t.entries {
      forall i, j | 0 <= i < j < |r.keys| ensures r.keys[i] != r.keys[j] {
        if j == |t.keys| {
          assert r.keys[i] == t.keys[i] && r.keys[i] in t.entries;
        }
      }
    }
  }
}
