/** Python dictionaries: a map together with the order in which its keys were
    first inserted, which is the order `dict.items()` walks them in. */
module OrderedDicts {
  import opened Strings

  datatype Dict<K(==, !new), V> = Dict(keys: seq<K>, values: map<K, V>)
  {
    /** Every key is listed exactly once, and exactly the mapped keys are listed. */
    ghost predicate Valid()
    {
      NoDuplicates(keys) && forall k :: k in values <==> k in keys
    }

    /** `dict.items()`, in insertion order. */
    function Items(): (items: seq<(K, V)>)
      requires Valid()
    {
      seq(|keys|, i requires 0 <= i < |keys| => (keys[i], values[keys[i]]))
    }

    /** `d[k] = v`: overwrite in place when `k` is present, otherwise append `k`. */
    function Put(k: K, v: V): (d: Dict<K, V>)
      requires Valid()
      ensures d.Valid()
      ensures d.values == values[k := v]
      ensures d.keys == if k in values then keys else keys + [k]
    {
      if k in values then Dict(keys, values[k := v]) else Dict(keys + [k], values[k := v])
    }
  }

  function Empty<K(==, !new), V>(): (d: Dict<K, V>)
    ensures d.Valid() && d.keys == []
  {
    Dict([], map[])
  }

  /** Writing the same key twice leaves only the second write. */
  lemma PutPut<K(!new), V>(d: Dict<K, V>, k: K, v1: V, v2: V)
    requires d.Valid()
    ensures d.Put(k, v1).Put(k, v2) == d.Put(k, v2)
  {
    assert d.values[k := v1][k := v2] == d.values[k := v2];
  }

  /** A key not yet present is appended after all the others. */
  lemma PutNew<K(!new), V>(d: Dict<K, V>, k: K, v: V)
    requires d.Valid() && k !in d.keys
    ensures d.Put(k, v).keys == d.keys + [k]
  {
  }

  /** The dictionary made by writing `value(k)` under each key of `ks` in turn. */
  function FromKeys<K(!new), V>(ks: seq<K>, value: K -> V): (d: Dict<K, V>)
    ensures d.Valid()
  {
    if |ks| == 0 then Empty()
    else FromKeys(ks[..|ks| - 1], value).Put(ks[|ks| - 1], value(ks[|ks| - 1]))
  }

  /** The keys written are exactly `ks`, each holding its own value. */
  lemma {:induction false} FromKeysEntries<K(!new), V>(ks: seq<K>, value: K -> V)
    ensures forall k :: k in FromKeys(ks, value).values <==> k in ks
    ensures forall k :: k in ks ==> FromKeys(ks, value).values[k] == value(k)
  {
    if |ks| > 0 {
      FromKeysEntries(ks[..|ks| - 1], value);
      SplitLast(ks);
    }
  }

  /** Distinct keys keep the order in which they were written. */
  lemma {:induction false} FromKeysOrder<K(!new), V>(ks: seq<K>, value: K -> V)
    requires NoDuplicates(ks)
    ensures FromKeys(ks, value).keys == ks
  {
    if |ks| > 0 {
      var init, last := ks[..|ks| - 1], ks[|ks| - 1];
      NoDuplicatesInit(ks);
      FromKeysOrder(init, value);
      PutNew(FromKeys(init, value), last, value(last));
      SplitLast(ks);
    }
  }
}
