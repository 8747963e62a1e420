/**
 An insertion-ordered dictionary: .NET's `Dictionary<K, V>` enumerates its
 keys in insertion order as long as nothing is removed, and the dialog
 compiler's passes and the cache encoder depend on that order.
 */
module Dict {

  datatype Dict<K, V> = Dict(keys: seq<K>, values: map<K, V>)

  predicate Distinct<K(==)>(s: seq<K>) {
    forall i, j :: 0 <= i < j < |s| ==> s[i] != s[j]
  }

  /** The key order lists every key of the map exactly once. */
  predicate Valid<K(==), V>(d: Dict<K, V>) {
    && Distinct(d.keys)
    && (forall k :: k in d.values ==> k in d.keys)
    && (forall i :: 0 <= i < |d.keys| ==> d.keys[i] in d.values)
  }

  function Empty<K(==), V>(): (d: Dict<K, V>)
    ensures Valid(d) && d.keys == [] && d.values == map[]
  {
    Dict([], map[])
  }

  /** `dict[key] = value`: an existing key keeps its place, a new key goes last. */
  function Set<K(==), V>(d: Dict<K, V>, k: K, v: V): (r: Dict<K, V>)
    ensures Valid(d) ==> Valid(r)
    ensures r.values == d.values[k := v]
    ensures k in d.values ==> r.keys == d.keys
    ensures k !in d.values ==> r.keys == d.keys + [k]
  {
    if k in d.values then Dict(d.keys, d.values[k := v])
    else Dict(d.keys + [k], d.values[k := v])
  }

  /** `GetValueOrDefault`. */
  function GetOr<K(==), V>(d: Dict<K, V>, k: K, default: V): V {
    if k in d.values then d.values[k] else default
  }
}
