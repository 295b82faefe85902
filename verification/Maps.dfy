/** Maps given by their keys and a function. */
module Maps {

  ghost function MapOf<K(!new), V(!new)>(keys: set<K>, f: K -> V): (m: map<K, V>)
    ensures m.Keys == keys
    ensures forall k | k in keys :: m[k] == f(k)
  {
    if keys == {} then map[]
    else
      var k :| k in keys;
      MapOf(keys - {k}, f)[k := f(k)]
  }

  lemma MinusMinus<K, V>(m: map<K, V>, gone: set<K>, k: K)
    ensures m - gone - {k} == m - (gone + {k})
  {
  }
}
