/** A Python `dict` as the host code uses it: entries keep the order in which
    their key was first inserted, re-assigning a key replaces its value where it
    stands, and `copy()` followed by `update(other)` merges. */
module OrderedTable {
  import opened Base

  type Table<K, V> = seq<(K, V)>

  /** No key occurs twice, as in every dict. */
  predicate KeysDistinct<K(==), V>(t: Table<K, V>) {
    forall i, j :: 0 <= i < j < |t| ==> t[i].0 != t[j].0
  }

  /** The keys in iteration order. */
  function Keys<K, V>(t: Table<K, V>): (ks: seq<K>)
    ensures |ks| == |t| && forall i :: 0 <= i < |t| ==> ks[i] == t[i].0
  {
    seq(|t|, i requires 0 <= i < |t| => t[i].0)
  }

  /** Where key `k` stands, or -1. */
  function IndexOf<K(==), V>(t: Table<K, V>, k: K): (i: int)
    ensures -1 <= i < |t|
    ensures i >= 0 ==> t[i].0 == k && forall j :: 0 <= j < i ==> t[j].0 != k
    ensures i == -1 ==> forall j :: 0 <= j < |t| ==> t[j].0 != k
  {
    if |t| == 0 then -1
    else if t[0].0 == k then 0
    else
      var i := IndexOf(t[1..], k);
      if i == -1 then -1 else i + 1
  }

  /** `d.get(k)`: the value stored under `k`, None when `k` is absent. */
  function Get<K(==), V>(t: Table<K, V>, k: K): (r: Option<V>)
    ensures r.None? <==> forall i :: 0 <= i < |t| ==> t[i].0 != k
    ensures r.Some? ==> (k, r.value) in t
  {
    var i := IndexOf(t, k);
    if i == -1 then None else Some(t[i].1)
  }

  /** `d[k] = v`: replaces the value of an existing key in place, otherwise
      appends a new entry at the end. */
  function Put<K(==), V>(t: Table<K, V>, k: K, v: V): (r: Table<K, V>)
    ensures Get(t, k).Some? ==> |r| == |t|
    ensures Get(t, k).None? ==> |r| == |t| + 1 && r[|t|] == (k, v)
    ensures forall i :: 0 <= i < |t| ==> r[i].0 == t[i].0
    ensures forall i :: 0 <= i < |t| && t[i].0 != k ==> r[i] == t[i]
    ensures forall p :: p in r ==> p in t || p == (k, v)
  {
    var i := IndexOf(t, k);
    if i == -1 then t + [(k, v)] else t[i := (k, v)]
  }

  /** Two tables whose keys agree position by position find every key at the
      same place. */
  lemma {:induction false} IndexOfSameKeys<K, V>(t: Table<K, V>, u: Table<K, V>, k: K)
    requires |t| <= |u|
    requires forall i :: 0 <= i < |t| ==> t[i].0 == u[i].0
    requires forall i :: |t| <= i < |u| ==> u[i].0 != k
    ensures IndexOf(t, k) == IndexOf(u, k)
  {
    var i, j := IndexOf(t, k), IndexOf(u, k);
  }

  /** The dictionary laws: after `d[k] = v`, `d[k]` is `v` and every other
      key keeps its value. */
  lemma {:induction false} GetPut<K, V>(t: Table<K, V>, k: K, v: V, k': K)
    ensures Get(Put(t, k, v), k') == if k' == k then Some(v) else Get(t, k')
  {
    var r := Put(t, k, v);
    var i := IndexOf(t, k);
    if k' == k {
      if i == -1 {
        assert IndexOf(r, k) == |t| by {
          assert forall j :: 0 <= j < |t| ==> r[j].0 != k;
          assert r[|t|].0 == k;
        }
      } else {
        assert r[i] == (k, v);
        IndexOfSameKeys(r, t, k);
      }
    } else {
      IndexOfSameKeys(t, r, k');
    }
  }

  /** Assignment keeps the keys distinct and their order: an existing key
      stays where it is, a new one goes last. */
  lemma PutKeys<K, V>(t: Table<K, V>, k: K, v: V)
    requires KeysDistinct(t)
    ensures KeysDistinct(Put(t, k, v))
    ensures Keys(Put(t, k, v)) == if Get(t, k).Some? then Keys(t) else Keys(t) + [k]
  {
  }

  /** Assigns every entry of `es` in order, as a `for` loop of `d[k] = v` or
      `d.update(es)` does. */
  function PutAll<K(==), V>(t: Table<K, V>, es: seq<(K, V)>): (r: Table<K, V>)
    ensures forall p :: p in r ==> p in t || p in es
  {
    if es == [] then t
    else
      var last := es[|es| - 1];
      var r := Put(PutAll(t, es[..|es| - 1]), last.0, last.1);
      assert forall p :: p in es[..|es| - 1] ==> p in es;
      r
  }

  /** The value of the last entry of `es` with key `k`. */
  function LastOf<K(==), V>(es: seq<(K, V)>, k: K): (r: Option<V>)
    ensures r.Some? ==> (k, r.value) in es
    ensures r.None? <==> forall i :: 0 <= i < |es| ==> es[i].0 != k
  {
    if es == [] then None
    else if es[|es| - 1].0 == k then Some(es[|es| - 1].1)
    else
      var r := LastOf(es[..|es| - 1], k);
      assert forall i :: 0 <= i < |es| - 1 ==> es[..|es| - 1][i] == es[i];
      r
  }

  /** After assigning a sequence of entries, a key holds the last value
      assigned to it, or its old value when none was. */
  lemma {:induction false} GetPutAll<K, V>(t: Table<K, V>, es: seq<(K, V)>, k: K)
    ensures Get(PutAll(t, es), k) == if LastOf(es, k).Some? then LastOf(es, k) else Get(t, k)
  {
    if es != [] {
      var last := es[|es| - 1];
      GetPut(PutAll(t, es[..|es| - 1]), last.0, last.1, k);
      GetPutAll(t, es[..|es| - 1], k);
    }
  }

  /** Assigning entries keeps keys distinct; the keys of `t` stay first and in
      their order. */
  lemma {:induction false} PutAllKeys<K, V>(t: Table<K, V>, es: seq<(K, V)>)
    requires KeysDistinct(t)
    ensures KeysDistinct(PutAll(t, es))
    ensures |PutAll(t, es)| >= |t| && Keys(PutAll(t, es))[..|t|] == Keys(t)
  {
    if es != [] {
      var last := es[|es| - 1];
      var r0 := PutAll(t, es[..|es| - 1]);
      PutAllKeys(t, es[..|es| - 1]);
      PutKeys(r0, last.0, last.1);
      var r := Put(r0, last.0, last.1);
      assert forall i :: 0 <= i < |t| ==> Keys(r)[i] == Keys(r0)[i];
    }
  }

  /** The dict a loop of assignments builds from nothing. */
  function FromEntries<K(==), V>(es: seq<(K, V)>): (r: Table<K, V>)
    ensures forall p :: p in r ==> p in es
  {
    PutAll([], es)
  }

  /** In a dict built from entries, each key holds the last value given to it. */
  lemma FromEntriesGet<K, V>(es: seq<(K, V)>, k: K)
    ensures Get(FromEntries(es), k) == LastOf(es, k)
    ensures KeysDistinct(FromEntries(es))
  {
    GetPutAll([], es, k);
    PutAllKeys([], es);
  }

  /** In a dict, looking a key up finds the one value stored under it. */
  lemma {:induction false} GetDistinct<K, V>(t: Table<K, V>, i: int)
    requires KeysDistinct(t) && 0 <= i < |t|
    ensures Get(t, t[i].0) == Some(t[i].1)
  {
    var j := IndexOf(t, t[i].0);
    assert j <= i;
  }

  /** `d.copy(); d.update(u)`: `t`'s entries first, then `u`'s new keys; a key
      of both holds `u`'s value. */
  function Merge<K(==), V>(t: Table<K, V>, u: Table<K, V>): (r: Table<K, V>)
    ensures forall p :: p in r ==> p in t || p in u
  {
    PutAll(t, u)
  }

  /** The value `Merge` gives a key: `u`'s when `u` has it, else `t`'s. */
  lemma {:induction false} MergeGet<K, V>(t: Table<K, V>, u: Table<K, V>, k: K)
    requires KeysDistinct(u)
    ensures Get(Merge(t, u), k) == if Get(u, k).Some? then Get(u, k) else Get(t, k)
  {
    GetPutAll(t, u, k);
    LastOfDistinct(u, k);
  }

  /** In a table with distinct keys the last entry of a key is its only one. */
  lemma {:induction false} LastOfDistinct<K, V>(u: Table<K, V>, k: K)
    requires KeysDistinct(u)
    ensures LastOf(u, k) == Get(u, k)
  {
    match LastOf(u, k)
    case None =>
    case Some(v) =>
      var i :| 0 <= i < |u| && u[i] == (k, v);
      GetDistinct(u, i);
  }

  /** The entries a registration loop `for p in items: d[key(p)] = p` assigns. */
  function Keyed<K, V>(items: seq<V>, key: V -> K): (es: seq<(K, V)>)
    ensures |es| == |items| && forall i :: 0 <= i < |items| ==> es[i] == (key(items[i]), items[i])
  {
    seq(|items|, i requires 0 <= i < |items| => (key(items[i]), items[i]))
  }

  /** The registration loop itself: one assignment per item, in item order. */
  method Register<K(==), V>(items: seq<V>, key: V -> K) returns (t: Table<K, V>)
    ensures t == FromEntries(Keyed(items, key))
  {
    var es := Keyed(items, key);
    t := [];
    var i := 0;
    while i < |items|
      invariant 0 <= i <= |items|
      invariant t == PutAll([], es[..i])
    {
      assert es[..i + 1][..i] == es[..i];
      t := Put(t, key(items[i]), items[i]);
      i := i + 1;
    }
    assert es[..i] == es;
  }

  /** A registry built by the loop: keys are distinct, every entry is stored
      under its own key, a key is present exactly when some item has it, and
      it holds the LAST such item (a later registration overwrites). */
  lemma {:induction false} RegistryLookup<K, V>(items: seq<V>, key: V -> K, k: K)
    ensures KeysDistinct(FromEntries(Keyed(items, key)))
    ensures forall p :: p in FromEntries(Keyed(items, key)) ==> p.0 == key(p.1)
    ensures Get(FromEntries(Keyed(items, key)), k).Some? <==> exists i :: 0 <= i < |items| && key(items[i]) == k
    ensures Get(FromEntries(Keyed(items, key)), k).Some? ==>
      exists i :: (0 <= i < |items| && items[i] == Get(FromEntries(Keyed(items, key)), k).value && key(items[i]) == k
                   && forall j :: i < j < |items| ==> key(items[j]) != k)
  {
    var es := Keyed(items, key);
    FromEntriesGet(es, k);
    LastOfKeyed(items, key, k);
    assert forall i :: 0 <= i < |items| ==> es[i].0 == key(items[i]);
  }

  /** The last entry of a key among keyed items is the last item with it. */
  lemma {:induction false} LastOfKeyed<K, V>(items: seq<V>, key: V -> K, k: K)
    ensures LastOf(Keyed(items, key), k).Some? ==>
      exists i :: (0 <= i < |items| && items[i] == LastOf(Keyed(items, key), k).value && key(items[i]) == k
                   && forall j :: i < j < |items| ==> key(items[j]) != k)
  {
    if items != [] {
      var n := |items| - 1;
      var es, front := Keyed(items, key), Keyed(items[..n], key);
      assert es[n] == (key(items[n]), items[n]);
      if key(items[n]) == k {
        assert LastOf(es, k) == Some(items[n]);
        assert 0 <= n < |items| && items[n] == LastOf(es, k).value && key(items[n]) == k;
      } else {
        assert es[..n] == front;
        assert LastOf(es, k) == LastOf(front, k);
        LastOfKeyed(items[..n], key, k);
        if LastOf(front, k).Some? {
          var i :| (0 <= i < n && items[..n][i] == LastOf(front, k).value && key(items[..n][i]) == k
                    && forall j :: i < j < n ==> key(items[..n][j]) != k);
          assert forall j :: i < j < n ==> items[..n][j] == items[j];
          assert 0 <= i < |items| && items[i] == LastOf(es, k).value && key(items[i]) == k
                 && forall j :: i < j < |items| ==> key(items[j]) != k;
        }
      }
    }
  }

  /** `next((v for v in d.values() if p(v)), None)`: the first value, in
      iteration order, that satisfies `p`. */
  function FirstWhere<K, V>(t: Table<K, V>, p: V -> bool): (r: Option<V>)
    ensures r.None? <==> forall i :: 0 <= i < |t| ==> !p(t[i].1)
    ensures r.Some? ==> exists i :: (0 <= i < |t| && t[i].1 == r.value && p(r.value)
                                     && forall j :: 0 <= j < i ==> !p(t[j].1))
  {
    if t == [] then None
    else if p(t[0].1) then Some(t[0].1)
    else
      var r := FirstWhere(t[1..], p);
      assert forall i :: 1 <= i < |t| ==> t[1..][i - 1] == t[i];
      r
  }

  /** Every value a registration loop stores is one of its items. */
  lemma StoredAreItems<K, V>(items: seq<V>, key: V -> K)
    ensures forall i :: 0 <= i < |FromEntries(Keyed(items, key))| ==>
      exists j :: 0 <= j < |items| && items[j] == FromEntries(Keyed(items, key))[i].1
  {
    var t := FromEntries(Keyed(items, key));
    forall i | 0 <= i < |t|
      ensures exists j :: 0 <= j < |items| && items[j] == t[i].1
    {
      assert t[i] in Keyed(items, key);
    }
  }

  /** A factory's table: a dict filled by `for p in items: d[key(p)] = p`,
      together with the items it was built from. */
  class Registry<K(==), V> {
    ghost const items: seq<V>
    const key: V -> K
    const table: Table<K, V>

    ghost predicate Valid() {
      table == FromEntries(Keyed(items, key))
    }

    constructor (items: seq<V>, key: V -> K)
      ensures Valid() && this.items == items && this.key == key
    {
      this.items := items;
      this.key := key;
      var t := Register(items, key);
      table := t;
    }

    /** `d.get(k)`: the last item registered under `k`; None when no item
        has that key. */
    function Lookup(k: K): (r: Option<V>)
      requires Valid()
      ensures r.Some? <==> exists i :: 0 <= i < |items| && key(items[i]) == k
      ensures r.Some? ==> key(r.value) == k
      ensures r.Some? ==> exists i :: (0 <= i < |items| && items[i] == r.value
                                       && forall j :: i < j < |items| ==> key(items[j]) != k)
    {
      RegistryLookup(items, key, k);
      Get(table, k)
    }

    /** `next((v for v in d.values() if p(v)), None)`: the first stored item,
        in the dict's order, that satisfies `p`; None when no stored item
        does. Every stored item is one of the registered items. */
    function FirstMatching(p: V -> bool): (r: Option<V>)
      requires Valid()
      ensures r.None? <==> forall i :: 0 <= i < |table| ==> !p(table[i].1)
      ensures r.Some? ==> p(r.value) && exists i :: 0 <= i < |items| && items[i] == r.value
      ensures r.Some? ==> exists i :: (0 <= i < |table| && table[i].1 == r.value
                                       && forall j :: 0 <= j < i ==> !p(table[j].1))
    {
      StoredAreItems(items, key);
      FirstWhere(table, p)
    }
  }
}
