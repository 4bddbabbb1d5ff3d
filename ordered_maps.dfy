/**
 * A JavaScript `Map<string, V>`: a finite map that remembers the order in
 * which its keys were first set. `set` on a key already present replaces the
 * value and keeps the key's position; `set` on a new key appends it; `values()`
 * lists the values in key order.
 */
module OrderedMaps {
  import opened Primitives

  datatype OrderedMap<V> = OrderedMap(keys: seq<Id>, entries: map<Id, V>) {

    /** Every key is listed exactly once. */
    ghost predicate Valid() {
      && (forall k :: k in entries <==> k in keys)
      && (forall i, j :: 0 <= i < j < |keys| ==> keys[i] != keys[j])
    }

    /** `map.get(k)`. */
    function Get(k: Id): Option<V> {
      if k in entries then Some(entries[k]) else None
    }

    /** `map.set(k, v)`. */
    function Set(k: Id, v: V): (m: OrderedMap<V>)
      requires Valid()
      ensures m.Valid()
      ensures m.entries == entries[k := v]
      ensures k in entries ==> m.keys == keys
      ensures k !in entries ==> m.keys == keys + [k]
    {
      if k in entries then OrderedMap(keys, entries[k := v]) else OrderedMap(keys + [k], entries[k := v])
    }

    /** `Array.from(map.values())`. */
    function Values(): (vs: seq<V>)
      requires Valid()
      ensures |vs| == |keys|
      ensures forall i :: 0 <= i < |keys| ==> vs[i] == entries[keys[i]]
    {
      seq(|keys|, i requires 0 <= i < |keys| => entries[keys[i]])
    }

    /** The position of a key that is present. */
    function IndexOf(k: Id): (i: nat)
      requires Valid() && k in entries
      ensures i < |keys| && keys[i] == k
    {
      IndexIn(keys, k)
    }
  }

  function IndexIn(ks: seq<Id>, k: Id): (i: nat)
    requires k in ks
    ensures i < |ks| && ks[i] == k
  {
    if ks[0] == k then 0 else 1 + IndexIn(ks[1..], k)
  }

  function Empty<V>(): (m: OrderedMap<V>)
    ensures m.Valid() && m.Values() == []
  {
    OrderedMap([], map[])
  }

  /** Setting a key that is present replaces its value where it stands in `values()`. */
  lemma SetExistingValues<V>(m: OrderedMap<V>, k: Id, v: V)
    requires m.Valid() && k in m.entries
    ensures m.Set(k, v).Values() == m.Values()[m.IndexOf(k) := v]
  {
    var i := m.IndexOf(k);
    var a, b := m.Set(k, v).Values(), m.Values()[i := v];
    assert |a| == |b|;
    forall j | 0 <= j < |a| ensures a[j] == b[j] {
      if j != i {
        assert m.keys[j] != k;
      }
    }
  }

  /** Setting a new key appends its value to `values()`. */
  lemma SetNewValues<V>(m: OrderedMap<V>, k: Id, v: V)
    requires m.Valid() && k !in m.entries
    ensures m.Set(k, v).Values() == m.Values() + [v]
  {
    var a, b := m.Set(k, v).Values(), m.Values() + [v];
    assert |a| == |b|;
    forall j | 0 <= j < |a| ensures a[j] == b[j] {
      if j < |m.keys| {
        assert m.keys[j] != k;
      }
    }
  }

  /**
   * `Array.from(map.values()).find(v => key(v) === k)`, as the position of the
   * first value whose key is k.
   */
  function FindByKey<V>(vs: seq<V>, key: V -> Id, k: Id): (r: Option<nat>)
    ensures r.Some? ==> r.value < |vs| && key(vs[r.value]) == k
    ensures r.Some? ==> forall j :: 0 <= j < r.value ==> key(vs[j]) != k
    ensures r.None? ==> forall j :: 0 <= j < |vs| ==> key(vs[j]) != k
  {
    if vs == [] then None
    else if key(vs[0]) == k then Some(0)
    else match FindByKey(vs[1..], key, k)
      case None => None
      case Some(i) => Some(i + 1)
  }

  /** Replacing a value by one with the same key changes no search result. */
  lemma FindByKeyReplace<V>(vs: seq<V>, key: V -> Id, i: nat, v: V, k: Id)
    requires i < |vs| && key(v) == key(vs[i])
    ensures FindByKey(vs[i := v], key, k) == FindByKey(vs, key, k)
  {
    var w := vs[i := v];
    var a, b := FindByKey(w, key, k), FindByKey(vs, key, k);
    assert forall j :: 0 <= j < |vs| ==> key(w[j]) == key(vs[j]);
    if a.Some? {
      assert key(vs[a.value]) == k;
    }
    if b.Some? {
      assert key(w[b.value]) == k;
    }
  }

  /** Appending a value changes the search result only for that value's key. */
  lemma FindByKeyAppend<V>(vs: seq<V>, key: V -> Id, v: V, k: Id)
    ensures k != key(v) ==> FindByKey(vs + [v], key, k) == FindByKey(vs, key, k)
    ensures FindByKey(vs, key, k).Some? ==> FindByKey(vs + [v], key, k) == FindByKey(vs, key, k)
    ensures FindByKey(vs, key, k).None? && k == key(v) ==> FindByKey(vs + [v], key, k) == Some(|vs|)
  {
    var w := vs + [v];
    var a, b := FindByKey(w, key, k), FindByKey(vs, key, k);
    assert forall j :: 0 <= j < |vs| ==> w[j] == vs[j];
    if b.Some? {
      assert w[b.value] == vs[b.value];
    }
    if a.Some? && a.value < |vs| {
      assert w[a.value] == vs[a.value];
    }
    if b.None? && k == key(v) {
      assert key(w[|vs|]) == k;
    }
  }

  /** `find` on the values: the first value whose key is k. */
  function Lookup<V>(vs: seq<V>, key: V -> Id, k: Id): (r: Option<V>)
    ensures r.Some? ==> r.value in vs && key(r.value) == k
    ensures r.Some? ==> exists i :: 0 <= i < |vs| && vs[i] == r.value && forall j :: 0 <= j < i ==> key(vs[j]) != k
    ensures r.None? <==> forall v :: v in vs ==> key(v) != k
  {
    match FindByKey(vs, key, k)
    case None => None
    case Some(i) => Some(vs[i])
  }

  /** Replacing the value a search finds by one with the same key: that search now finds it, every other is unchanged. */
  lemma LookupAfterReplace<V>(vs: seq<V>, key: V -> Id, i: nat, v: V)
    requires i < |vs| && key(v) == key(vs[i]) && FindByKey(vs, key, key(v)) == Some(i)
    ensures Lookup(vs[i := v], key, key(v)) == Some(v)
    ensures forall k :: k != key(v) ==> Lookup(vs[i := v], key, k) == Lookup(vs, key, k)
  {
    FindByKeyReplace(vs, key, i, v, key(v));
    forall k | k != key(v) ensures Lookup(vs[i := v], key, k) == Lookup(vs, key, k) {
      FindByKeyReplace(vs, key, i, v, k);
    }
  }

  /** Appending a value whose key no search found: that search now finds it, every other is unchanged. */
  lemma LookupAfterAppend<V>(vs: seq<V>, key: V -> Id, v: V)
    requires Lookup(vs, key, key(v)).None?
    ensures Lookup(vs + [v], key, key(v)) == Some(v)
    ensures forall k :: k != key(v) ==> Lookup(vs + [v], key, k) == Lookup(vs, key, k)
  {
    FindByKeyAppend(vs, key, v, key(v));
    forall k | k != key(v) ensures Lookup(vs + [v], key, k) == Lookup(vs, key, k) {
      FindByKeyAppend(vs, key, v, k);
      var b := FindByKey(vs, key, k);
      if b.Some? {
        assert (vs + [v])[b.value] == vs[b.value];
      }
    }
  }

  /** Values whose keys are pairwise distinct. */
  ghost predicate DistinctKeys<V>(vs: seq<V>, key: V -> Id) {
    forall i, j :: 0 <= i < j < |vs| ==> key(vs[i]) != key(vs[j])
  }

  lemma DistinctKeysReplace<V>(vs: seq<V>, key: V -> Id, i: nat, v: V)
    requires DistinctKeys(vs, key) && i < |vs| && key(v) == key(vs[i])
    ensures DistinctKeys(vs[i := v], key)
  {
    var w := vs[i := v];
    forall a, b | 0 <= a < b < |w| ensures key(w[a]) != key(w[b]) {
      assert key(w[a]) == key(vs[a]) && key(w[b]) == key(vs[b]);
    }
  }

  lemma DistinctKeysAppend<V>(vs: seq<V>, key: V -> Id, v: V)
    requires DistinctKeys(vs, key) && forall u :: u in vs ==> key(u) != key(v)
    ensures DistinctKeys(vs + [v], key)
  {
    var w := vs + [v];
    forall a, b | 0 <= a < b < |w| ensures key(w[a]) != key(w[b]) {
      assert w[a] == vs[a];
      if b < |vs| {
        assert w[b] == vs[b];
      } else {
        assert vs[a] in vs;
      }
    }
  }

  /**
   * Every value is stored under its own id, and no id the oracle hands out
   * from serial `next` on is a key yet.
   */
  ghost predicate Keyed<V>(m: OrderedMap<V>, id: V -> Id, next: nat) {
    && m.Valid()
    && (forall k :: k in m.entries ==> id(m.entries[k]) == k)
    && (forall n: nat :: next <= n ==> SerialId(n) !in m.entries)
  }

  /** Storing a value under the next serial id appends it and keeps the map keyed. */
  lemma KeyedInsert<V>(m: OrderedMap<V>, id: V -> Id, next: nat, v: V)
    requires Keyed(m, id, next) && id(v) == SerialId(next)
    ensures SerialId(next) !in m.entries
    ensures Keyed(m.Set(id(v), v), id, next + 1)
    ensures m.Set(id(v), v).Values() == m.Values() + [v]
  {
    forall n: nat | next + 1 <= n ensures SerialId(n) != SerialId(next) {
      if SerialId(n) == SerialId(next) {
        SerialIdInjective(n, next);
      }
    }
    SetNewValues(m, id(v), v);
  }

  /** Replacing the i-th value by one with the same id keeps the keys, their order and the map keyed. */
  lemma KeyedReplace<V>(m: OrderedMap<V>, id: V -> Id, next: nat, i: nat, v: V)
    requires Keyed(m, id, next) && i < |m.keys| && id(v) == m.keys[i]
    ensures Keyed(m.Set(id(v), v), id, next)
    ensures m.Set(id(v), v).keys == m.keys
    ensures m.Set(id(v), v).Values() == m.Values()[i := v]
  {
    assert m.IndexOf(id(v)) == i;
    SetExistingValues(m, id(v), v);
  }

  /**
   * An upsert that finds its key: the value found is replaced, under the same
   * id and in the same place, by one with the same key. The search for that
   * key now finds the new value and every other search is unchanged.
   */
  lemma UpsertReplace<V>(m: OrderedMap<V>, id: V -> Id, key: V -> Id, next: nat, i: nat, v: V)
    requires Keyed(m, id, next) && DistinctKeys(m.Values(), key)
    requires FindByKey(m.Values(), key, key(v)) == Some(i) && id(v) == id(m.Values()[i])
    ensures Keyed(m.Set(id(v), v), id, next) && DistinctKeys(m.Set(id(v), v).Values(), key)
    ensures m.Set(id(v), v).keys == m.keys && m.Set(id(v), v).entries == m.entries[id(v) := v]
    ensures Lookup(m.Set(id(v), v).Values(), key, key(v)) == Some(v)
    ensures forall k :: k != key(v) ==> Lookup(m.Set(id(v), v).Values(), key, k) == Lookup(m.Values(), key, k)
  {
    var vs := m.Values();
    assert vs[i] == m.entries[m.keys[i]];
    KeyedReplace(m, id, next, i, v);
    LookupAfterReplace(vs, key, i, v);
    DistinctKeysReplace(vs, key, i, v);
  }

  /**
   * An upsert that does not find its key: the new value, under the next
   * serial id, is appended. The search for its key now finds it and every
   * other search is unchanged.
   */
  lemma UpsertAppend<V>(m: OrderedMap<V>, id: V -> Id, key: V -> Id, next: nat, v: V)
    requires Keyed(m, id, next) && DistinctKeys(m.Values(), key)
    requires Lookup(m.Values(), key, key(v)).None? && id(v) == SerialId(next)
    ensures SerialId(next) !in m.entries
    ensures Keyed(m.Set(id(v), v), id, next + 1) && DistinctKeys(m.Set(id(v), v).Values(), key)
    ensures m.Set(id(v), v).Values() == m.Values() + [v]
    ensures Lookup(m.Set(id(v), v).Values(), key, key(v)) == Some(v)
    ensures forall k :: k != key(v) ==> Lookup(m.Set(id(v), v).Values(), key, k) == Lookup(m.Values(), key, k)
  {
    var vs := m.Values();
    KeyedInsert(m, id, next, v);
    LookupAfterAppend(vs, key, v);
    DistinctKeysAppend(vs, key, v);
  }
}
