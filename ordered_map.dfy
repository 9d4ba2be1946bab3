/** The JavaScript `Map` the chart-tab merge builds: a dictionary whose keys
    keep the order in which they were first inserted. Setting an existing key
    replaces its value and leaves its position alone. */
module OrderedMaps {
  import opened Wrappers
  import opened Sequences

  /** The values of `entries`, listed in the order of `keys`. */
  function ValuesInOrder<K, V>(keys: seq<K>, entries: map<K, V>): (vs: seq<V>)
    requires forall i :: 0 <= i < |keys| ==> keys[i] in entries
    ensures |vs| == |keys|
    ensures forall i :: 0 <= i < |keys| ==> vs[i] == entries[keys[i]]
  {
    if keys == [] then [] else [entries[keys[0]]] + ValuesInOrder(keys[1..], entries)
  }

  class OrderedMap<K(==,!new), V> {
    /** Keys in insertion order. */
    var keys: seq<K>
    /** The value stored under each key. */
    var entries: map<K, V>

    ghost predicate Valid()
      reads this
    {
      && Distinct(keys)
      && (forall k :: k in entries <==> k in keys)
    }

    /** `new Map()` */
    constructor ()
      ensures Valid()
      ensures keys == [] && entries == map[]
    {
      keys := [];
      entries := map[];
    }

    /** `map.has(k)` */
    method Has(k: K) returns (present: bool)
      requires Valid()
      ensures present <==> k in keys
    {
      present := k in entries;
    }

    /** `map.get(k)`: `undefined` (here `None`) for a missing key. */
    method Get(k: K) returns (v: Option<V>)
      requires Valid()
      ensures k in keys ==> v == Some(entries[k])
      ensures k !in keys ==> v == None
    {
      v := if k in entries then Some(entries[k]) else None;
    }

    /** `map.set(k, v)` */
    method Set(k: K, v: V)
      requires Valid()
      modifies this
      ensures Valid()
      ensures keys == if k in old(keys) then old(keys) else old(keys) + [k]
      ensures entries == old(entries)[k := v]
    {
      if k !in entries {
        keys := keys + [k];
      }
      entries := entries[k := v];
    }

    /** `[...map.values()]` */
    function Values(): (vs: seq<V>)
      reads this
      requires Valid()
      ensures |vs| == |keys|
      ensures forall i :: 0 <= i < |keys| ==> vs[i] == entries[keys[i]]
    {
      ValuesInOrder(keys, entries)
    }
  }
}
