/** Python's insertion-ordered `dict` keyed by strings: the keys in insertion order plus the mapping. */
module OrderedMaps {

  datatype OrderedMap<V> = OrderedMap(keys: seq<string>, values: map<string, V>)

  /** Each key is listed once, and exactly the mapped keys are listed. */
  ghost predicate Valid<V>(m: OrderedMap<V>) {
    && (forall i, j :: 0 <= i < j < |m.keys| ==> m.keys[i] != m.keys[j])
    && (forall k :: k in m.values <==> k in m.keys)
  }

  /** A well-formed dictionary has as many entries as listed keys. */
  lemma {:induction false} KeyCount<V>(m: OrderedMap<V>)
    requires Valid(m)
    ensures |m.values| == |m.keys|
    decreases |m.keys|
  {
    if m.keys != [] {
      var n := |m.keys| - 1;
      var last := m.keys[n];
      var rest := OrderedMap(m.keys[..n], m.values - {last});
      assert forall k :: k in m.keys <==> k in m.keys[..n] || k == last;
      KeyCount(rest);
    }
  }

  /** The dictionary with no entries. */
  function Empty<V>(): (m: OrderedMap<V>)
    ensures Valid(m) && m.keys == [] && m.values == map[]
  {
    OrderedMap([], map[])
  }
}
