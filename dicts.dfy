/** Python's `dict` with string keys: a map together with the order in which
    its keys were first inserted, which is the order iteration follows. */
module Dicts {

  datatype Dict<V> = Dict(keys: seq<string>, vals: map<string, V>) {

    /** Every key is listed exactly once, and only keys are listed. */
    ghost predicate Valid() {
      && (forall i, j :: 0 <= i < j < |keys| ==> keys[i] != keys[j])
      && (forall k :: k in vals <==> k in keys)
    }

    /** `d[k] = v`: a new key goes to the end of the order, an existing key
        keeps its place and only its value changes. */
    function Put(k: string, v: V): (d: Dict<V>)
    {
      if k in keys then Dict(keys, vals[k := v]) else Dict(keys + [k], vals[k := v])
    }
  }

  /** `{}` */
  function Empty<V>(): (d: Dict<V>)
    ensures d.keys == [] && d.vals == map[]
  {
    Dict([], map[])
  }

  lemma {:induction false} EmptyValid<V>()
    ensures Empty<V>().Valid()
  {
  }

  /** After `d[k] = v`, the keys and the names with a value are the old ones
      and `k`. */
  lemma {:induction false} PutMembers<V>(d: Dict<V>, k: string, v: V, n: string)
    ensures n in d.Put(k, v).vals <==> n in d.vals || n == k
    ensures n in d.Put(k, v).keys <==> n in d.keys || n == k
  {
    if k !in d.keys {
      assert d.Put(k, v).keys == d.keys + [k];
      assert d.Put(k, v).keys[|d.keys|] == k;
    }
  }

  /** Assignment keeps every key listed exactly once. */
  lemma {:induction false} PutValid<V>(d: Dict<V>, k: string, v: V)
    requires d.Valid()
    ensures d.Put(k, v).Valid()
  {
  }
}
