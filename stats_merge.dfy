/** Merging the primary and supplemental statistics results: one record per
    period, the primary list's periods first, supplemental values filling in
    without ever overwriting a value with null. */
module StatsMerge {
  import opened Wrappers
  import opened Sequences
  import opened OrderedMaps

  /** A field value of a result record. */
  datatype Value = Null | Num(n: int) | Str(s: string)

  /** A flat result record: field name to value. */
  type Record = map<string, Value>

  /** The value of the key field; `None` is JavaScript `undefined`. */
  type Key = Option<Value>

  /** `record[id]`: the key field's value, or `undefined` when it is missing. */
  function KeyOf(r: Record, id: string): (k: Key)
    ensures k.Some? <==> id in r
    ensures k.Some? ==> k.value == r[id]
  {
    if id in r then Some(r[id]) else None
  }

  function KeysOf(rs: seq<Record>, id: string): (ks: seq<Key>)
    ensures |ks| == |rs|
    ensures forall i :: 0 <= i < |rs| ==> ks[i] == KeyOf(rs[i], id)
  {
    seq(|rs|, i requires 0 <= i < |rs| => KeyOf(rs[i], id))
  }

  /** The predicate "the record's key field holds `k`". */
  function HasKey(id: string, k: Key): Record -> bool {
    r => KeyOf(r, id) == k
  }

  /** lodash `omitBy(r, isNull)` */
  function OmitNulls(r: Record): (kept: Record)
    ensures kept.Keys <= r.Keys
    ensures forall f :: f in kept ==> kept[f] == r[f] && kept[f] != Null
    ensures forall f :: f in r && r[f] != Null ==> f in kept
  {
    map f | f in r && r[f] != Null :: r[f]
  }

  /** lodash `merge(target, source)` on flat records: every field of `source`
      is written into `target`. */
  function Assign(target: Record, source: Record): (r: Record)
    ensures r.Keys == target.Keys + source.Keys
    ensures forall f :: f in source ==> r[f] == source[f]
    ensures forall f :: f in target && f !in source ==> r[f] == target[f]
  {
    map f | f in target.Keys + source.Keys :: if f in source then source[f] else target[f]
  }

  /** `merge(target, omitBy(update, isNull))`: the non-null fields of `update`
      win; every other field keeps the value `target` has. */
  function MergeNonNull(target: Record, update: Record): (r: Record)
    ensures r.Keys == target.Keys + (set f | f in update && update[f] != Null)
    ensures forall f :: f in update && update[f] != Null ==> r[f] == update[f]
    ensures forall f :: f in target && (f !in update || update[f] == Null) ==> r[f] == target[f]
  {
    Assign(target, OmitNulls(update))
  }

  // ---------------------------------------------------------------------
  // The merged series, stated directly
  // ---------------------------------------------------------------------

  /** The last record of `rs` whose key is `k`, if any (a `Map` built from a
      list keeps the last value given for a key). */
  function LastWithKey(rs: seq<Record>, id: string, k: Key): (r: Option<Record>)
    ensures r.Some? <==> k in KeysOf(rs, id)
    ensures r.Some? ==> KeyOf(r.value, id) == k
    ensures r.Some? ==>
      exists i :: (0 <= i < |rs| && rs[i] == r.value && forall j :: i < j < |rs| ==> KeyOf(rs[j], id) != k)
  {
    if rs == [] then None
    else
      var init, last := rs[..|rs| - 1], rs[|rs| - 1];
      assert KeysOf(rs, id) == KeysOf(init, id) + [KeyOf(last, id)];
      if KeyOf(last, id) == k then Some(last) else LastWithKey(init, id, k)
  }

  /** `base` with each update merged in, left to right. */
  function Overlay(base: Record, updates: seq<Record>): Record {
    if updates == [] then base
    else MergeNonNull(Overlay(base, updates[..|updates| - 1]), updates[|updates| - 1])
  }

  /** The merged record for key `k`: the last primary record with that key,
      or else the first supplemental one, with every later supplemental
      record of that key merged into it. (Keys in neither list get the empty
      record; the merged series never asks for one.) */
  function MergedRecord(resultsA: seq<Record>, resultsB: seq<Record>, id: string, k: Key): (merged: Record)
    ensures k in KeysOf(resultsA, id) + KeysOf(resultsB, id) ==> KeyOf(merged, id) == k
    ensures k !in KeysOf(resultsA, id) + KeysOf(resultsB, id) ==> merged == map[]
  {
    var updates := Filter(resultsB, HasKey(id, k));
    UpdatesOfKey(resultsB, id, k);
    match LastWithKey(resultsA, id, k)
    case Some(base) =>
      OverlayKeepsKey(base, updates, id, k);
      Overlay(base, updates)
    case None =>
      if updates == [] then map[]
      else
        OverlayKeepsKey(updates[0], updates[1..], id, k);
        Overlay(updates[0], updates[1..])
  }

  /** The records of `rs` holding key `k` all carry it, and there are some
      exactly when `k` is one of the keys of `rs`. */
  lemma UpdatesOfKey(rs: seq<Record>, id: string, k: Key)
    ensures var updates := Filter(rs, HasKey(id, k));
      && (forall i :: 0 <= i < |updates| ==> KeyOf(updates[i], id) == k)
      && (updates == [] <==> k !in KeysOf(rs, id))
  {
    var updates := Filter(rs, HasKey(id, k));
    forall i | 0 <= i < |updates| ensures KeyOf(updates[i], id) == k {
      assert updates[i] in updates;
    }
    if k in KeysOf(rs, id) {
      KeyedRecordPresent(rs, id, k);
    }
  }

  /** One record per distinct key, keys in order of first appearance in the
      primary list and then in the supplemental list. */
  function MergedSeries(resultsA: seq<Record>, resultsB: seq<Record>, id: string): (merged: seq<Record>)
    ensures KeysOf(merged, id) == Dedup(KeysOf(resultsA, id) + KeysOf(resultsB, id))
  {
    var ks := Dedup(KeysOf(resultsA, id) + KeysOf(resultsB, id));
    var merged := seq(|ks|, i requires 0 <= i < |ks| => MergedRecord(resultsA, resultsB, id, ks[i]));
    assert forall i :: 0 <= i < |ks| ==> ks[i] in KeysOf(resultsA, id) + KeysOf(resultsB, id);
    assert KeysOf(merged, id) == ks;
    merged
  }

  // ---------------------------------------------------------------------
  // The merge as the source performs it
  // ---------------------------------------------------------------------

  /** The map state after reading `resultsA` and then `resultsB`: keys in
      first-appearance order, each holding its merged record. */
  ghost predicate Indexes(keys: seq<Key>, entries: map<Key, Record>,
                          resultsA: seq<Record>, resultsB: seq<Record>, id: string)
  {
    && keys == Dedup(KeysOf(resultsA, id) + KeysOf(resultsB, id))
    && forall k :: k in entries ==> entries[k] == MergedRecord(resultsA, resultsB, id, k)
  }

  /** Index the primary results by key in a `Map`, then fold each
      supplemental result into it, and list the map's values. */
  method MergeQueryResults(resultsA: seq<Record>, resultsB: seq<Record>, id: string) returns (merged: seq<Record>)
    ensures merged == MergedSeries(resultsA, resultsB, id)
  {
    var results := IndexByKey(resultsA, id);
    FoldSupplemental(results, resultsA, resultsB, id);
    IndexedValues(resultsA, resultsB, id, results.keys, results.entries);
    merged := results.Values();
  }

  /** `new Map(resultsA.map(result => [result[id], result]))` */
  method IndexByKey(resultsA: seq<Record>, id: string) returns (results: OrderedMap<Key, Record>)
    ensures fresh(results) && results.Valid()
    ensures Indexes(results.keys, results.entries, resultsA, [], id)
  {
    results := new OrderedMap<Key, Record>();
    IndexesEmpty(resultsA, id);
    for i := 0 to |resultsA|
      invariant results.Valid()
      invariant Indexes(results.keys, results.entries, resultsA[..i], [], id)
    {
      ghost var keys, entries := results.keys, results.entries;
      var key := KeyOf(resultsA[i], id);
      results.Set(key, resultsA[i]);
      PrimaryStep(resultsA, i, id, keys, entries, results.keys, results.entries);
    }
    assert resultsA[..|resultsA|] == resultsA;
  }

  /** `resultsB.forEach(...)`: merge each supplemental result into the
      stored record of its key, or store it under a new key. */
  method FoldSupplemental(results: OrderedMap<Key, Record>, resultsA: seq<Record>, resultsB: seq<Record>, id: string)
    requires results.Valid()
    requires Indexes(results.keys, results.entries, resultsA, [], id)
    modifies results
    ensures results.Valid()
    ensures Indexes(results.keys, results.entries, resultsA, resultsB, id)
  {
    assert resultsB[..0] == [];
    for j := 0 to |resultsB|
      invariant results.Valid()
      invariant Indexes(results.keys, results.entries, resultsA, resultsB[..j], id)
    {
      var result := resultsB[j];
      var key := KeyOf(result, id);
      var present := results.Has(key);
      var nextResult;
      if present {
        var previous := results.Get(key);
        nextResult := MergeNonNull(previous.value, result);
      } else {
        nextResult := result;
      }
      SupplementalStep(resultsA, resultsB, j, id, results.keys, results.entries, nextResult);
      results.Set(key, nextResult);
    }
    assert resultsB[..|resultsB|] == resultsB;
  }

  lemma IndexesEmpty(resultsA: seq<Record>, id: string)
    ensures Indexes([], map[], resultsA[..0], [], id)
  {
    assert KeysOf(resultsA[..0], id) + KeysOf([], id) == [];
  }

  lemma KeysOfSnoc(rs: seq<Record>, r: Record, id: string)
    ensures KeysOf(rs + [r], id) == KeysOf(rs, id) + [KeyOf(r, id)]
  {
  }

  /** Reading one more primary record: `map.set(key, record)`. */
  lemma PrimaryStep(resultsA: seq<Record>, i: nat, id: string, keys: seq<Key>, entries: map<Key, Record>,
                    nextKeys: seq<Key>, nextEntries: map<Key, Record>)
    requires i < |resultsA|
    requires Indexes(keys, entries, resultsA[..i], [], id)
    requires var key := KeyOf(resultsA[i], id);
      nextKeys == (if key in keys then keys else keys + [key]) && nextEntries == entries[key := resultsA[i]]
    ensures Indexes(nextKeys, nextEntries, resultsA[..i + 1], [], id)
  {
    var prefix, a, key := resultsA[..i], resultsA[i], KeyOf(resultsA[i], id);
    assert resultsA[..i + 1] == prefix + [a];
    KeysOfSnoc(prefix, a, id);
    assert KeysOf(prefix, id) + KeysOf([], id) == KeysOf(prefix, id);
    assert KeysOf(prefix + [a], id) + KeysOf([], id) == KeysOf(prefix, id) + [key];
    DedupSnoc(KeysOf(prefix, id), key);
    forall k | k in nextEntries
      ensures nextEntries[k] == MergedRecord(prefix + [a], [], id, k)
    {
      PrimaryRecordSnoc(prefix, a, id, k);
    }
  }

  /** With no supplemental records, the merged record of a key is the last
      primary record holding it. */
  lemma PrimaryRecordSnoc(resultsA: seq<Record>, a: Record, id: string, k: Key)
    ensures MergedRecord(resultsA + [a], [], id, k) ==
      if KeyOf(a, id) == k then a else MergedRecord(resultsA, [], id, k)
  {
    assert Filter([], HasKey(id, k)) == [];
    assert (resultsA + [a])[..|resultsA|] == resultsA;
  }

  /** Reading one more supplemental record: merge it into the stored record
      of its key, or store it as it is. */
  lemma SupplementalStep(resultsA: seq<Record>, resultsB: seq<Record>, j: nat, id: string,
                         keys: seq<Key>, entries: map<Key, Record>, nextResult: Record)
    requires j < |resultsB|
    requires Indexes(keys, entries, resultsA, resultsB[..j], id)
    requires forall k :: k in entries <==> k in keys
    requires var key := KeyOf(resultsB[j], id);
      nextResult == if key in entries then MergeNonNull(entries[key], resultsB[j]) else resultsB[j]
    ensures var key := KeyOf(resultsB[j], id);
      Indexes(if key in keys then keys else keys + [key], entries[key := nextResult], resultsA, resultsB[..j + 1], id)
  {
    var b, key := resultsB[j], KeyOf(resultsB[j], id);
    var before := KeysOf(resultsA, id) + KeysOf(resultsB[..j], id);
    assert resultsB[..j + 1] == resultsB[..j] + [b];
    KeysOfSnoc(resultsB[..j], b, id);
    assert KeysOf(resultsA, id) + KeysOf(resultsB[..j + 1], id) == before + [key];
    DedupSnoc(before, key);
    var entries' := entries[key := nextResult];
    forall k | k in entries'
      ensures entries'[k] == MergedRecord(resultsA, resultsB[..j + 1], id, k)
    {
      MergedRecordSnoc(resultsA, resultsB[..j], b, id, k);
      if k == key {
        assert (key in entries) == (key in before);
      } else {
        assert entries'[k] == entries[k];
      }
    }
  }

  /** How one more supplemental record changes the merged record of a key. */
  lemma MergedRecordSnoc(resultsA: seq<Record>, resultsB: seq<Record>, b: Record, id: string, k: Key)
    ensures MergedRecord(resultsA, resultsB + [b], id, k) ==
      if KeyOf(b, id) != k then MergedRecord(resultsA, resultsB, id, k)
      else if k in KeysOf(resultsA, id) + KeysOf(resultsB, id) then MergeNonNull(MergedRecord(resultsA, resultsB, id, k), b)
      else b
  {
    var updates := Filter(resultsB, HasKey(id, k));
    UpdatesSnoc(resultsB, b, id, k);
    if KeyOf(b, id) != k {
      assert updates + [] == updates;
    } else {
      match LastWithKey(resultsA, id, k)
      case Some(base) =>
        assert k in KeysOf(resultsA, id) + KeysOf(resultsB, id);
        OverlaySnoc(base, updates, b);
      case None =>
        assert (k in KeysOf(resultsA, id) + KeysOf(resultsB, id)) == (k in KeysOf(resultsB, id));
        if k in KeysOf(resultsB, id) {
          KeyedRecordPresent(resultsB, id, k);
          assert (updates + [b])[1..] == updates[1..] + [b];
          OverlaySnoc(updates[0], updates[1..], b);
        } else {
          NoUpdatesForAbsentKey(resultsB, id, k);
          assert updates + [b] == [b];
        }
    }
  }

  lemma UpdatesSnoc(resultsB: seq<Record>, b: Record, id: string, k: Key)
    ensures Filter(resultsB + [b], HasKey(id, k)) ==
      Filter(resultsB, HasKey(id, k)) + if KeyOf(b, id) == k then [b] else []
  {
    FilterAppend(resultsB, [b], HasKey(id, k));
    assert [b][1..] == [];
  }

  lemma OverlaySnoc(base: Record, updates: seq<Record>, u: Record)
    ensures Overlay(base, updates + [u]) == MergeNonNull(Overlay(base, updates), u)
  {
    assert (updates + [u])[..|updates|] == updates;
  }

  lemma KeyedRecordPresent(rs: seq<Record>, id: string, k: Key)
    requires k in KeysOf(rs, id)
    ensures Filter(rs, HasKey(id, k)) != []
  {
    var i :| 0 <= i < |rs| && KeysOf(rs, id)[i] == k;
    assert rs[i] in Filter(rs, HasKey(id, k));
  }

  lemma NoUpdatesForAbsentKey(rs: seq<Record>, id: string, k: Key)
    requires k !in KeysOf(rs, id)
    ensures Filter(rs, HasKey(id, k)) == []
  {
  }

  /** Listing the final map's values gives the merged series. */
  lemma IndexedValues(resultsA: seq<Record>, resultsB: seq<Record>, id: string,
                      keys: seq<Key>, entries: map<Key, Record>)
    requires Indexes(keys, entries, resultsA, resultsB, id)
    requires forall k :: k in entries <==> k in keys
    ensures forall i :: 0 <= i < |keys| ==> keys[i] in entries
    ensures ValuesInOrder(keys, entries) == MergedSeries(resultsA, resultsB, id)
  {
  }

  // ---------------------------------------------------------------------
  // What the merged series promises
  // ---------------------------------------------------------------------

  /** Merging records that share a key keeps that key. */
  lemma {:induction false} OverlayKeepsKey(base: Record, updates: seq<Record>, id: string, k: Key)
    requires KeyOf(base, id) == k
    requires forall i :: 0 <= i < |updates| ==> KeyOf(updates[i], id) == k
    ensures KeyOf(Overlay(base, updates), id) == k
    decreases |updates|
  {
    if updates != [] {
      OverlayKeepsKey(base, updates[..|updates| - 1], id, k);
    }
  }

  /** One record per distinct key: the primary list's keys in order of first
      appearance, then the keys only the supplemental list has, in its order. */
  lemma MergedSeriesKeys(resultsA: seq<Record>, resultsB: seq<Record>, id: string)
    ensures var merged, keysA, keysB := MergedSeries(resultsA, resultsB, id), KeysOf(resultsA, id), KeysOf(resultsB, id);
      && KeysOf(merged, id) == Dedup(keysA) + Dedup(Filter(keysB, NotIn(keysA)))
      && Distinct(KeysOf(merged, id))
      && (forall k :: k in KeysOf(merged, id) <==> k in keysA || k in keysB)
      && |merged| <= |resultsA| + |Filter(keysB, NotIn(keysA))|
  {
    DedupConcat(KeysOf(resultsA, id), KeysOf(resultsB, id));
  }

  /** Keys of `rs` are pairwise different. */
  ghost predicate UniqueKeys(rs: seq<Record>, id: string) {
    Distinct(KeysOf(rs, id))
  }

  lemma {:induction false} LastWithUniqueKey(rs: seq<Record>, id: string, i: nat)
    requires UniqueKeys(rs, id) && i < |rs|
    ensures LastWithKey(rs, id, KeyOf(rs[i], id)) == Some(rs[i])
    decreases |rs|
  {
    var init, last := rs[..|rs| - 1], rs[|rs| - 1];
    if i < |rs| - 1 {
      assert KeysOf(rs, id)[i] != KeysOf(rs, id)[|rs| - 1];
      assert KeysOf(init, id) == KeysOf(rs, id)[..|rs| - 1];
      assert init[i] == rs[i];
      LastWithUniqueKey(init, id, i);
    }
  }

  lemma {:induction false} UniqueKeyUpdates(rs: seq<Record>, id: string, j: nat)
    requires UniqueKeys(rs, id) && j < |rs|
    ensures Filter(rs, HasKey(id, KeyOf(rs[j], id))) == [rs[j]]
    decreases |rs|
  {
    var k := KeyOf(rs[j], id);
    assert KeysOf(rs[1..], id) == KeysOf(rs, id)[1..];
    if j == 0 {
      assert k !in KeysOf(rs[1..], id) by {
        forall i | 0 <= i < |rs| - 1 ensures KeysOf(rs[1..], id)[i] != k {
          assert KeysOf(rs, id)[i + 1] != KeysOf(rs, id)[0];
        }
      }
      NoUpdatesForAbsentKey(rs[1..], id, k);
    } else {
      assert KeysOf(rs, id)[0] != KeysOf(rs, id)[j];
      assert rs[1..][j - 1] == rs[j];
      UniqueKeyUpdates(rs[1..], id, j - 1);
    }
  }

  /** With unique primary keys, the primary list's `i`th record stays at
      position `i`, with every supplemental record of its key merged in. */
  lemma MergedPrimaryRecord(resultsA: seq<Record>, resultsB: seq<Record>, id: string, i: nat)
    requires UniqueKeys(resultsA, id) && i < |resultsA|
    ensures var merged := MergedSeries(resultsA, resultsB, id);
      i < |merged| && merged[i] == Overlay(resultsA[i], Filter(resultsB, HasKey(id, KeyOf(resultsA[i], id))))
  {
    var keysA, keysB := KeysOf(resultsA, id), KeysOf(resultsB, id);
    DedupConcat(keysA, keysB);
    DedupOfDistinct(keysA);
    assert Dedup(keysA + keysB)[i] == keysA[i];
    LastWithUniqueKey(resultsA, id, i);
  }

  /** Non-null supplemental values fill in; null ones never overwrite. For a
      period both lists report once, the merged record holds every non-null
      field of the supplemental record, and the primary record's value for
      every field the supplemental record leaves null or does not have. */
  lemma MergedSharedKey(resultsA: seq<Record>, resultsB: seq<Record>, id: string, i: nat, j: nat)
    requires UniqueKeys(resultsA, id) && UniqueKeys(resultsB, id)
    requires i < |resultsA| && j < |resultsB| && KeyOf(resultsA[i], id) == KeyOf(resultsB[j], id)
    ensures var merged, a, b := MergedSeries(resultsA, resultsB, id), resultsA[i], resultsB[j];
      && i < |merged|
      && merged[i].Keys == a.Keys + (set f | f in b && b[f] != Null)
      && (forall f :: f in b && b[f] != Null ==> merged[i][f] == b[f])
      && (forall f :: f in a && (f !in b || b[f] == Null) ==> merged[i][f] == a[f])
  {
    MergedPrimaryRecord(resultsA, resultsB, id, i);
    UniqueKeyUpdates(resultsB, id, j);
    assert [resultsB[j]][..0] == [];
  }

  /** A primary period the supplemental list lacks is output as the last
      primary record of that period, unchanged, at the period's first
      position; with unique primary periods that record is the `i`th one,
      at position `i`. */
  lemma MergedPrimaryOnlyKey(resultsA: seq<Record>, resultsB: seq<Record>, id: string, i: nat)
    requires i < |resultsA|
    requires KeyOf(resultsA[i], id) !in KeysOf(resultsB, id)
    ensures var merged, keysA, k := MergedSeries(resultsA, resultsB, id), KeysOf(resultsA, id), KeyOf(resultsA[i], id);
      exists m :: 0 <= m < |Dedup(keysA)| && m < |merged| && Dedup(keysA)[m] == k
        && merged[m] == LastWithKey(resultsA, id, k).value
    ensures UniqueKeys(resultsA, id) ==>
      var merged := MergedSeries(resultsA, resultsB, id);
      i < |merged| && merged[i] == resultsA[i]
  {
    var merged, keysA, keysB, k := MergedSeries(resultsA, resultsB, id), KeysOf(resultsA, id), KeysOf(resultsB, id), KeyOf(resultsA[i], id);
    NoUpdatesForAbsentKey(resultsB, id, k);
    DedupConcat(keysA, keysB);
    assert keysA[i] == k;
    assert k in Dedup(keysA);
    var m :| 0 <= m < |Dedup(keysA)| && Dedup(keysA)[m] == k;
    assert (Dedup(keysA) + Dedup(Filter(keysB, NotIn(keysA))))[m] == k;
    assert merged[m] == MergedRecord(resultsA, resultsB, id, k);
    assert LastWithKey(resultsA, id, k).Some?;
    if UniqueKeys(resultsA, id) {
      MergedPrimaryRecord(resultsA, resultsB, id, i);
    }
  }

  /** A supplemental record whose period the primary list lacks is included
      as it is, nulls and all, after all of the primary list's periods. */
  lemma MergedNewKey(resultsA: seq<Record>, resultsB: seq<Record>, id: string, j: nat)
    requires UniqueKeys(resultsB, id) && j < |resultsB|
    requires KeyOf(resultsB[j], id) !in KeysOf(resultsA, id)
    ensures var merged := MergedSeries(resultsA, resultsB, id);
      exists m :: |Dedup(KeysOf(resultsA, id))| <= m < |merged| && merged[m] == resultsB[j]
  {
    var k := KeyOf(resultsB[j], id);
    var merged := MergedSeries(resultsA, resultsB, id);
    var m := NewKeyPosition(KeysOf(resultsA, id), KeysOf(resultsB, id), j);
    NewKeyRecord(resultsA, resultsB, id, j);
    assert merged[m] == MergedRecord(resultsA, resultsB, id, k);
  }

  /** A key only the second list has sits after all keys of the first. */
  lemma NewKeyPosition(keysA: seq<Key>, keysB: seq<Key>, j: nat) returns (m: nat)
    requires j < |keysB| && keysB[j] !in keysA
    ensures |Dedup(keysA)| <= m < |Dedup(keysA + keysB)| && Dedup(keysA + keysB)[m] == keysB[j]
  {
    DedupConcat(keysA, keysB);
    var kept := Filter(keysB, NotIn(keysA));
    assert NotIn(keysA)(keysB[j]);
    assert keysB[j] in kept;
    var rest := Dedup(kept);
    assert keysB[j] in rest;
    var n :| 0 <= n < |rest| && rest[n] == keysB[j];
    m := |Dedup(keysA)| + n;
    assert (Dedup(keysA) + rest)[m] == rest[n];
  }

  lemma NewKeyRecord(resultsA: seq<Record>, resultsB: seq<Record>, id: string, j: nat)
    requires UniqueKeys(resultsB, id) && j < |resultsB|
    requires KeyOf(resultsB[j], id) !in KeysOf(resultsA, id)
    ensures MergedRecord(resultsA, resultsB, id, KeyOf(resultsB[j], id)) == resultsB[j]
  {
    UniqueKeyUpdates(resultsB, id, j);
    assert [resultsB[j]][1..] == [];
  }

  /** A period both lists report: the supplemental `likes` fills the primary
      null, and the supplemental null `views` leaves the primary 10 alone. */
  lemma NonClobberExample()
    ensures MergedSeries([map["period" := Str("2020-01-01"), "views" := Num(10), "likes" := Null]],
                         [map["period" := Str("2020-01-01"), "views" := Null, "likes" := Num(5)]], "period")
         == [map["period" := Str("2020-01-01"), "views" := Num(10), "likes" := Num(5)]]
  {
    var a := map["period" := Str("2020-01-01"), "views" := Num(10), "likes" := Null];
    var b := map["period" := Str("2020-01-01"), "views" := Null, "likes" := Num(5)];
    var merged := MergedSeries([a], [b], "period");
    MergedSeriesKeys([a], [b], "period");
    assert Filter(KeysOf([b], "period"), NotIn(KeysOf([a], "period"))) == [];
    MergedPrimaryRecord([a], [b], "period", 0);
    UniqueKeyUpdates([b], "period", 0);
    OverlayOne(a, b);
    NonClobberRecord(a, b);
  }

  lemma OverlayOne(base: Record, u: Record)
    ensures Overlay(base, [u]) == MergeNonNull(base, u)
  {
    assert [u][..0] == [];
  }

  lemma NonClobberRecord(a: Record, b: Record)
    requires a == map["period" := Str("2020-01-01"), "views" := Num(10), "likes" := Null]
    requires b == map["period" := Str("2020-01-01"), "views" := Null, "likes" := Num(5)]
    ensures MergeNonNull(a, b) == map["period" := Str("2020-01-01"), "views" := Num(10), "likes" := Num(5)]
  {
    var r := MergeNonNull(a, b);
    assert r.Keys == {"period", "views", "likes"};
  }

  /** The supplemental list's extra period is appended after the shared one. */
  lemma KeyUnionExample()
    ensures KeysOf(MergedSeries([map["period" := Str("p1")]],
                                [map["period" := Str("p1")], map["period" := Str("p2")]], "period"), "period")
         == [Some(Str("p1")), Some(Str("p2"))]
  {
    var a, b := [map["period" := Str("p1")]], [map["period" := Str("p1")], map["period" := Str("p2")]];
    var p1, p2 := Some(Str("p1")), Some(Str("p2"));
    MergedSeriesKeys(a, b, "period");
    assert KeysOf(a, "period") == [p1] && KeysOf(b, "period") == [p1, p2];
    SecondKeyAppended(p1, p2);
  }

  lemma SecondKeyAppended(p1: Key, p2: Key)
    requires p1 != p2
    ensures Dedup([p1]) + Dedup(Filter([p1, p2], NotIn([p1]))) == [p1, p2]
  {
    FilterAppend([p1], [p2], NotIn([p1]));
    FilteredOut(p1, NotIn([p1]));
    FilteredIn(p2, NotIn([p1]));
    assert [p1, p2] == [p1] + [p2];
    DedupOfDistinct([p1]);
    DedupOfDistinct([p2]);
  }
}
