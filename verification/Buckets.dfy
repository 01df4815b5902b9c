/**
 Hash maps whose values are non-empty sets. A pool index of this kind is nothing
 but a set of values grouped by a key: `GroupBy` is that grouping, `Insert` and
 `Remove` are the two in-place operations, and the lemmas say that they keep a
 grouping a grouping.
 */
module Buckets {

  /** The canonical index: one bucket per occurring key, and no empty bucket. */
  ghost function GroupBy<K, V>(values: set<V>, key: V -> K): (index: map<K, set<V>>) {
    map k | k in Keys(values, key) :: set v | v in values && key(v) == k
  }

  ghost function Keys<K, V>(values: set<V>, key: V -> K): (keys: set<K>) {
    set v | v in values :: key(v)
  }

  function Insert<K, V>(index: map<K, set<V>>, k: K, v: V): (r: map<K, set<V>>) {
    index[k := (if k in index then index[k] else {}) + {v}]
  }

  function Remove<K, V>(index: map<K, set<V>>, k: K, v: V): (r: map<K, set<V>>) {
    if k !in index then index
    else
      var bucket := index[k] - {v};
      if bucket == {} then index - {k} else index[k := bucket]
  }

  lemma InsertGroups<K, V>(values: set<V>, key: V -> K, v: V)
    ensures Insert(GroupBy(values, key), key(v), v) == GroupBy(values + {v}, key)
  {
    var a, b := Insert(GroupBy(values, key), key(v), v), GroupBy(values + {v}, key);
    forall k ensures (k in a <==> k in b) {
      if k in b && k != key(v) {
        var w :| w in values + {v} && key(w) == k;
        assert w in values;
      }
    }
    forall k | k in a ensures a[k] == b[k] {}
  }

  lemma RemoveGroups<K, V>(values: set<V>, key: V -> K, v: V)
    ensures Remove(GroupBy(values, key), key(v), v) == GroupBy(values - {v}, key)
  {
    var g := GroupBy(values, key);
    var a, b := Remove(g, key(v), v), GroupBy(values - {v}, key);
    forall k ensures (k in a <==> k in b) {
      if k in a {
        var w :| w in (if k == key(v) then g[k] - {v} else g[k]);
        assert w in values - {v} && key(w) == k;
      }
    }
    forall k | k in a ensures a[k] == b[k] {}
  }

  lemma EmptyGroups<K, V>(values: set<V>, key: V -> K)
    ensures GroupBy(values, key) == map[] <==> values == {}
  {
    if values == {} {
      assert Keys(values, key) == {};
    } else {
      var v :| v in values;
      assert key(v) in GroupBy(values, key);
    }
  }
}
