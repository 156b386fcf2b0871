/** A JavaScript `Map` with string keys, as content-progress.js uses it: the
    entries plus the order in which their keys were first inserted, which is
    the order `values()` walks them in. */
module OrderedMaps {
  import opened Wrappers

  datatype OrderedMap<V> = OrderedMap(keys: seq<string>, entries: map<string, V>) {

    /** Every key is recorded once, and exactly the keys of `entries` are
        recorded. */
    ghost predicate Valid() {
      && (forall i, j :: 0 <= i < j < |keys| ==> keys[i] != keys[j])
      && (forall k :: k in entries <==> k in keys)
    }

    /** `map.get(k)`, with `None` for `undefined`. */
    function Get(k: string): (r: Option<V>)
      ensures r.Some? <==> k in entries
      ensures r.Some? ==> r.value == entries[k]
    {
      if k in entries then Some(entries[k]) else None
    }

    /** `map.set(k, v)`: the value is replaced, the key keeps its place if it
        was already there and otherwise goes last. */
    function Set(k: string, v: V): (m: OrderedMap<V>)
      ensures m.entries == entries[k := v]
      ensures |keys| <= |m.keys| <= |keys| + 1 && m.keys[..|keys|] == keys
      ensures |m.keys| == |keys| + 1 ==> m.keys[|keys|] == k
      ensures Valid() ==> m.Valid() && (|m.keys| == |keys| <==> k in entries)
    {
      if k in entries then OrderedMap(keys, entries[k := v])
      else OrderedMap(keys + [k], entries[k := v])
    }

    /** `Array.from(map.values())`: the values in key order. */
    function Values(): (vs: seq<V>)
      requires Valid()
      ensures |vs| == |keys|
      ensures forall i :: 0 <= i < |keys| ==> vs[i] == entries[keys[i]]
    {
      seq(|keys|, i requires 0 <= i < |keys| => entries[keys[i]])
    }
  }

  /** `new Map()`. */
  function Empty<V>(): (m: OrderedMap<V>)
    ensures m.Valid() && m.keys == [] && m.entries == map[]
  {
    OrderedMap([], map[])
  }
}
