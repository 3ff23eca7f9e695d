/**
 * Python dictionaries iterate in the order their keys were first inserted,
 * and the engines rely on that order in two places (the re-identification
 * scan and the per-worker passes). `Dict` pairs a map with that order.
 */
module OrderedDict {
  import opened Wrappers

  datatype Dict<K, V> = Dict(keys: seq<K>, entries: map<K, V>)

  /** Keys are listed once each, and exactly the keys of the map are listed. */
  ghost predicate Valid<K, V>(d: Dict<K, V>) {
    && Distinct(d.keys)
    && (forall k | k in d.entries :: k in d.keys)
    && (forall i | 0 <= i < |d.keys| :: d.keys[i] in d.entries)
  }

  ghost predicate Distinct<K>(ks: seq<K>) {
    forall i, j :: 0 <= i < j < |ks| ==> ks[i] != ks[j]
  }

  function Empty<K, V>(): (d: Dict<K, V>)
    ensures Valid(d) && d.entries == map[]
  {
    Dict([], map[])
  }

  function Get<K, V>(d: Dict<K, V>, k: K): (r: Option<V>)
    ensures r.Some? <==> k in d.entries
    ensures r.Some? ==> r.value == d.entries[k]
  {
    if k in d.entries then Some(d.entries[k]) else None
  }

  /** Assignment `d[k] = v`: a new key goes to the end, an existing key keeps its place. */
  function Put<K(==), V>(d: Dict<K, V>, k: K, v: V): (d': Dict<K, V>)
    ensures Valid(d) ==> Valid(d')
    ensures d'.entries == d.entries[k := v]
    ensures k in d.keys ==> d'.keys == d.keys
    ensures k !in d.keys ==> d'.keys == d.keys + [k]
  {
    if k in d.keys then Dict(d.keys, d.entries[k := v]) else Dict(d.keys + [k], d.entries[k := v])
  }

  /** The keys of `ks` other than `k`, in their original order. */
  function Without<K(==)>(ks: seq<K>, k: K): (r: seq<K>)
    ensures forall x | x in r :: x in ks && x != k
    ensures forall x | x in ks && x != k :: x in r
    ensures |r| <= |ks|
    ensures Distinct(ks) ==> Distinct(r)
  {
    if ks == [] then []
    else if ks[0] == k then Without(ks[1..], k)
    else
      var rest := Without(ks[1..], k);
      assert forall i :: 0 < i < |ks| ==> ks[i] in ks[1..];
      assert forall m :: 0 <= m < |ks| - 1 ==> ks[1..][m] == ks[m + 1];
      assert Distinct(ks) ==> ks[0] !in ks[1..];
      [ks[0]] + rest
  }

  /** Deletion `del d[k]`: the remaining keys keep their order. */
  function Remove<K(==), V>(d: Dict<K, V>, k: K): (d': Dict<K, V>)
    ensures Valid(d) ==> Valid(d')
    ensures d'.entries == d.entries - {k}
  {
    var ks := Without(d.keys, k);
    assert forall i | 0 <= i < |ks| :: ks[i] in ks;
    Dict(ks, d.entries - {k})
  }
}
