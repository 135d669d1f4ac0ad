/**
 * PHP's ordered associative arrays: a key order plus a finite map. Assigning to
 * an existing key keeps its position; a new key goes to the end.
 */
module Dicts {
  import opened Results

  datatype Dict<K(!new), V> = Dict(keys: seq<K>, vals: map<K, V>) {
    /** Keys listed once each, exactly the keys of the map. */
    ghost predicate Valid() {
      (forall i, j :: 0 <= i < j < |keys| ==> keys[i] != keys[j])
      && (forall k :: k in vals <==> k in keys)
    }

    function Get(k: K): (r: Option<V>)
      ensures r.Some? <==> k in vals
      ensures r.Some? ==> r.value == vals[k]
    {
      if k in vals then Some(vals[k]) else None
    }

    predicate Has(k: K) {
      k in vals
    }

    function Size(): nat {
      |keys|
    }
  }

  function EmptyDict<K(!new), V>(): (d: Dict<K, V>)
    ensures d.Valid() && d.keys == []
  {
    Dict([], map[])
  }

  /** $d[$k] = $v. */
  function Put<K(!new), V>(d: Dict<K, V>, k: K, v: V): (r: Dict<K, V>)
    ensures r.vals == d.vals[k := v]
    ensures k in d.vals ==> r.keys == d.keys
    ensures k !in d.vals ==> r.keys == d.keys + [k]
    ensures d.Valid() ==> r.Valid()
  {
    if k in d.vals then Dict(d.keys, d.vals[k := v])
    else
      var r := Dict(d.keys + [k], d.vals[k := v]);
      assert r.keys[|d.keys|] == k;
      r
  }

  /** The keys of `s` without any copy of `k`, order kept. */
  function Without<K(==)>(s: seq<K>, k: K): (r: seq<K>)
    ensures forall i :: 0 <= i < |r| ==> r[i] in s && r[i] != k
    ensures forall i :: 0 <= i < |s| && s[i] != k ==> s[i] in r
    ensures |r| <= |s|
  {
    if |s| == 0 then []
    else if s[0] == k then Without(s[1..], k)
    else [s[0]] + Without(s[1..], k)
  }

  /** unset($d[$k]). */
  function Remove<K(!new), V>(d: Dict<K, V>, k: K): (r: Dict<K, V>)
    ensures r.vals == d.vals - {k}
  {
    Dict(Without(d.keys, k), d.vals - {k})
  }

  /** The values in key order (array_values). */
  function Values<K(!new), V>(d: Dict<K, V>): (r: seq<V>)
    requires d.Valid()
    ensures |r| == |d.keys|
    ensures forall i :: 0 <= i < |d.keys| ==> r[i] == d.vals[d.keys[i]]
  {
    seq(|d.keys|, i requires 0 <= i < |d.keys| => d.vals[d.keys[i]])
  }

  /** Assignment keeps the dictionary well formed. */
  lemma PutValid<K(!new), V>(d: Dict<K, V>, k: K, v: V)
    requires d.Valid()
    ensures Put(d, k, v).Valid()
  {
  }

  lemma {:induction false} WithoutDistinct<K>(s: seq<K>, k: K)
    requires forall i, j :: 0 <= i < j < |s| ==> s[i] != s[j]
    ensures forall i, j :: 0 <= i < j < |Without(s, k)| ==> Without(s, k)[i] != Without(s, k)[j]
    decreases |s|
  {
    if |s| > 0 {
      WithoutDistinct(s[1..], k);
      if s[0] != k {
        var r := Without(s, k);
        assert r == [s[0]] + Without(s[1..], k);
        forall i, j | 0 <= i < j < |r|
          ensures r[i] != r[j]
        {
          if i == 0 {
            assert r[j] in Without(s[1..], k);
            assert r[j] in s[1..];
          }
        }
      }
    }
  }

  /** Removal keeps the dictionary well formed. */
  lemma RemoveValid<K(!new), V>(d: Dict<K, V>, k: K)
    requires d.Valid()
    ensures Remove(d, k).Valid()
  {
    WithoutDistinct(d.keys, k);
    var r := Remove(d, k);
  }

  /** Reading back: the assigned key gives the assigned value, any other key is unaffected. */
  lemma GetPut<K(!new), V>(d: Dict<K, V>, k: K, v: V, other: K)
    ensures Put(d, k, v).Get(k) == Some(v)
    ensures other != k ==> Put(d, k, v).Get(other) == d.Get(other)
  {
  }
}
