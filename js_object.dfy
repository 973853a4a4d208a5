/**
 * A JavaScript plain object used as a dictionary. Its own properties are
 * kept as `keys`, in insertion order (the order `Object.keys` and `for…in`
 * visit them), and `entries` gives the value stored under each key.
 */
module JsObject {

  /** No element occurs twice. */
  ghost predicate Distinct<T>(xs: seq<T>) {
    forall i, j :: 0 <= i < j < |xs| ==> xs[i] != xs[j]
  }

  datatype Dict<K(==, !new), V> = Dict(keys: seq<K>, entries: map<K, V>) {

    /** Every own property is listed once, and exactly the properties are listed. */
    ghost predicate Valid() {
      Distinct(keys) && forall k :: k in entries <==> k in keys
    }

    /** `obj.hasOwnProperty(k)` */
    predicate Has(k: K) {
      k in entries
    }

    /** `obj[k]` for a key that is present */
    function Get(k: K): V
      requires Has(k)
    {
      entries[k]
    }

    /** `obj[k]`, reading an absent key as `default` */
    function GetOr(k: K, default: V): (v: V)
      ensures Has(k) ==> v == Get(k)
      ensures !Has(k) ==> v == default
    {
      if k in entries then entries[k] else default
    }

    /**
     * `obj[k] = v`: afterwards `k` holds `v`, every other key keeps its value,
     * an existing key keeps its position and a new key goes last.
     */
    function Set(k: K, v: V): (d: Dict<K, V>)
      requires Valid()
      ensures d.Valid()
      ensures d.Has(k) && d.Get(k) == v
      ensures forall k' :: k' != k ==> (d.Has(k') <==> Has(k'))
      ensures forall k' :: k' != k && Has(k') ==> d.Get(k') == Get(k')
      ensures d.keys == if Has(k) then keys else keys + [k]
    {
      Dict(if k in entries then keys else keys + [k], entries[k := v])
    }
  }

  /** The object literal `{}` */
  function Empty<K(==, !new), V>(): (d: Dict<K, V>)
    ensures d.Valid() && d.keys == []
    ensures forall k :: !d.Has(k)
  {
    Dict([], map[])
  }
}
