/** A JavaScript plain object used as a dictionary: string keys, and the
    property order in which `Object.keys`, `Object.values` and
    `Object.entries` list them. For keys that are not array indices that
    order is insertion order (ECMA-262, 10th edition, section 9.1.11.1,
    OrdinaryOwnPropertyKeys). */
module OrderedMaps {

  /** Each key listed at most once. */
  ghost predicate Distinct(keys: seq<string>) {
    forall i, j :: 0 <= i < j < |keys| ==> keys[i] != keys[j]
  }

  datatype OrderedMap<V> = OrderedMap(keys: seq<string>, byKey: map<string, V>) {

    /** Keys are listed once each, and exactly the keys of the map are listed. */
    ghost predicate Valid() {
      && Distinct(keys)
      && (forall k :: k in byKey <==> k in keys)
    }

    /** `obj[k] = v`: a new key goes to the end of the order, an existing
        one keeps its place. */
    function Put(k: string, v: V): (r: OrderedMap<V>)
      requires Valid()
      ensures r.Valid()
      ensures r.byKey == byKey[k := v]
      ensures r.keys == if k in byKey then keys else keys + [k]
    {
      if k in byKey then OrderedMap(keys, byKey[k := v])
      else OrderedMap(keys + [k], byKey[k := v])
    }

    /** `Object.values(obj)`. */
    function Values(): (vs: seq<V>)
      requires Valid()
      ensures |vs| == |keys|
      ensures forall i :: 0 <= i < |keys| ==> vs[i] == byKey[keys[i]]
    {
      seq(|keys|, i requires 0 <= i < |keys| => byKey[keys[i]])
    }

    /** `Object.entries(obj)`. */
    function Entries(): (es: seq<(string, V)>)
      requires Valid()
      ensures |es| == |keys|
      ensures forall i :: 0 <= i < |keys| ==> es[i] == (keys[i], byKey[keys[i]])
    {
      seq(|keys|, i requires 0 <= i < |keys| => (keys[i], byKey[keys[i]]))
    }
  }

  /** Setting a new key adds its value at the end of `Object.values`. */
  lemma PutNewValues<V>(m: OrderedMap<V>, k: string, v: V)
    requires m.Valid() && k !in m.byKey
    ensures m.Put(k, v).Values() == m.Values() + [v]
  {
    var before, after := m.Values(), m.Put(k, v).Values();
    assert |after| == |before| + 1;
    forall i | 0 <= i < |before|
      ensures after[i] == before[i]
    {
      assert m.keys[i] != k;
    }
  }

  /** Setting a listed key replaces its value in place. */
  lemma PutOldValues<V>(m: OrderedMap<V>, k: string, v: V, i: nat)
    requires m.Valid() && i < |m.keys| && m.keys[i] == k
    ensures m.Put(k, v).Values() == m.Values()[i := v]
  {
    var before, after := m.Values(), m.Put(k, v).Values();
    assert |after| == |before|;
    forall j | 0 <= j < |before|
      ensures after[j] == before[i := v][j]
    {
      if j != i {
        assert m.keys[j] != k;
      }
    }
  }

  /** `{}`. */
  function Empty<V>(): (m: OrderedMap<V>)
    ensures m.Valid() && m.keys == [] && m.Values() == []
  {
    OrderedMap([], map[])
  }
}
