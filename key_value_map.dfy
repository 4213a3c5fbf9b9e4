/** The firmware's associative list (`KeyValueMap` in arduino/helper/map.h):
    a singly linked chain of key/value pairs with unique keys, new pairs put
    at the head. The chain is described by the ghost sequence of its nodes;
    its abstract value is the sequence of their (key, value) pairs, head
    first. */
module KeyValueMaps {
  import opened Base

  /** Where the key `k` first appears in `es`, -1 when it does not. */
  function Position<K(==), V>(es: seq<(K, V)>, k: K): (p: int)
    ensures -1 <= p < |es|
    ensures p == -1 <==> forall i :: 0 <= i < |es| ==> es[i].0 != k
    ensures p >= 0 ==> es[p].0 == k && forall i :: 0 <= i < p ==> es[i].0 != k
  {
    if es == [] then -1
    else if es[0].0 == k then 0
    else
      var p := Position(es[1..], k);
      if p == -1 then -1 else p + 1
  }

  /** The value stored under `k`, None when there is none: what a correct
      `getValue` would answer (NULL for a missing key). */
  function Lookup<K(==), V>(es: seq<(K, V)>, k: K): (r: Option<V>)
    ensures r.None? <==> Position(es, k) == -1
    ensures r.Some? ==> r.value == es[Position(es, k)].1
  {
    var p := Position(es, k);
    if p == -1 then None else Some(es[p].1)
  }

  predicate UniqueKeys<K(==), V>(es: seq<(K, V)>) {
    forall i, j :: 0 <= i < j < |es| ==> es[i].0 != es[j].0
  }

  /** The first position of `k` is the only one when keys are unique. */
  lemma PositionUnique<K, V>(es: seq<(K, V)>, k: K, i: nat)
    requires UniqueKeys(es) && i < |es| && es[i].0 == k
    ensures Position(es, k) == i
  {
  }

  /** After a new key is put at the head, looking it up finds its value and
      every other key finds what it found before. */
  lemma LookupAfterAdd<K, V>(es: seq<(K, V)>, k: K, v: V, k': K)
    ensures Lookup([(k, v)] + es, k') == if k' == k then Some(v) else Lookup(es, k')
  {
    PositionAfterAdd(es, k, v, k');
    if k' != k && Position(es, k') != -1 {
      assert ([(k, v)] + es)[Position(es, k') + 1] == es[Position(es, k')];
    }
  }

  /** A key absent from every position past the head is at most at the
      head. */
  lemma NotPastHead<K, V>(es: seq<(K, V)>, k: K)
    requires forall j :: 0 < j < |es| ==> es[j].0 != k
    ensures Position(es, k) < 1
  {
  }

  /** After a new key is put at the head, it is at position 0 and every other
      key is one position later than before. */
  lemma {:induction false} PositionAfterAdd<K, V>(es: seq<(K, V)>, k: K, v: V, k': K)
    ensures Position([(k, v)] + es, k) == 0
    ensures k' != k ==> Position([(k, v)] + es, k') == (if Position(es, k') == -1 then -1 else Position(es, k') + 1)
  {
    assert ([(k, v)] + es)[1..] == es;
  }

  /** A pair of the chain: key and value fixed at construction, and the link
      to the next pair. */
  class Pair<K, V> {
    const key: K
    const value: V
    var next: Pair?<K, V>

    constructor (key: K, value: V)
      ensures this.key == key && this.value == value && next == null
    {
      this.key := key;
      this.value := value;
      next := null;
    }
  }

  /** Each node links to the one after it, and the last to nothing. */
  ghost predicate Linked<K, V>(nodes: seq<Pair<K, V>>)
    reads nodes
  {
    && (forall i :: 0 <= i < |nodes| - 1 ==> nodes[i].next == nodes[i + 1])
    && (nodes != [] ==> nodes[|nodes| - 1].next == null)
  }

  /** The link out of the `i`th node of a linked chain. */
  lemma LinkAt<K, V>(nodes: seq<Pair<K, V>>, i: nat)
    requires Linked(nodes) && i < |nodes|
    ensures nodes[i].next == (if i + 1 < |nodes| then nodes[i + 1] else null)
  {
  }

  /** No two nodes carry the same key. */
  ghost predicate DistinctKeys<K, V>(nodes: seq<Pair<K, V>>) {
    forall i, j :: 0 <= i < j < |nodes| ==> nodes[i].key != nodes[j].key
  }

  /** The (key, value) pairs the nodes hold, in order. */
  ghost function Pairs<K, V>(nodes: seq<Pair<K, V>>): (es: seq<(K, V)>)
    ensures |es| == |nodes|
    ensures forall i :: 0 <= i < |nodes| ==> es[i] == (nodes[i].key, nodes[i].value)
  {
    seq(|nodes|, i requires 0 <= i < |nodes| => (nodes[i].key, nodes[i].value))
  }

  /** A node with a new key put before a linked chain, linking to its first
      node, makes a linked chain with distinct keys whose pairs are the old
      ones behind the new one. */
  lemma Consed<K, V>(node: Pair<K, V>, nodes: seq<Pair<K, V>>)
    requires Linked(nodes) && DistinctKeys(nodes) && Position(Pairs(nodes), node.key) == -1
    requires node.next == (if nodes == [] then null else nodes[0])
    ensures Linked([node] + nodes) && DistinctKeys([node] + nodes)
    ensures Pairs([node] + nodes) == [(node.key, node.value)] + Pairs(nodes)
  {
    var all := [node] + nodes;
    assert forall i :: 1 <= i < |all| ==> all[i] == nodes[i - 1];
    assert forall i :: 0 <= i < |nodes| ==> Pairs(nodes)[i].0 == nodes[i].key;
    PairsConcat([node], nodes);
  }

  /** Once the node before position `p` links past it, the chain without
      that node is linked, its keys stay distinct and its pairs are the old
      ones without the `p`th. */
  lemma Unlinked<K, V>(nodes: seq<Pair<K, V>>, p: nat)
    requires 1 <= p < |nodes| && DistinctKeys(nodes)
    requires forall j :: 0 <= j < |nodes| - 1 && j != p - 1 ==> nodes[j].next == nodes[j + 1]
    requires p + 1 < |nodes| ==> nodes[|nodes| - 1].next == null
    requires nodes[p - 1].next == (if p + 1 < |nodes| then nodes[p + 1] else null)
    ensures Linked(nodes[..p] + nodes[p + 1..]) && DistinctKeys(nodes[..p] + nodes[p + 1..])
  {
    var rest := nodes[..p] + nodes[p + 1..];
    assert forall i :: 0 <= i < |rest| ==> rest[i] == nodes[if i < p then i else i + 1];
  }

  /** The pairs of joined chains are the joined pairs. */
  lemma PairsConcat<K, V>(a: seq<Pair<K, V>>, b: seq<Pair<K, V>>)
    ensures Pairs(a + b) == Pairs(a) + Pairs(b)
  {
    assert forall i :: 0 <= i < |a + b| ==> Pairs(a + b)[i] == (Pairs(a) + Pairs(b))[i];
  }

  /** Dropping the `p`th node drops the `p`th pair. */
  lemma PairsWithout<K, V>(nodes: seq<Pair<K, V>>, p: nat)
    requires p < |nodes|
    ensures Pairs(nodes[..p] + nodes[p + 1..]) == Pairs(nodes)[..p] + Pairs(nodes)[p + 1..]
  {
    PairsConcat(nodes[..p], nodes[p + 1..]);
    assert Pairs(nodes[..p]) == Pairs(nodes)[..p];
    assert Pairs(nodes[p + 1..]) == Pairs(nodes)[p + 1..];
  }

  class KeyValueMap<K(==), V> {
    var head: Pair?<K, V>
    /** `size_`, a uint8_t. */
    var size: nat
    /** The nodes of the chain, head first. */
    ghost var spine: seq<Pair<K, V>>

    ghost predicate Valid()
      reads this, spine
    {
      && size == |spine| && size < 256
      && head == (if spine == [] then null else spine[0])
      && Linked(spine)
      && DistinctKeys(spine)
    }

    /** The pairs of the chain, head first. */
    ghost function Elements(): (es: seq<(K, V)>)
      reads this
    {
      Pairs(spine)
    }

    /** A new map is empty. */
    constructor ()
      ensures Valid() && Elements() == [] && head == null
    {
      head := null;
      size := 0;
      spine := [];
    }

    /** `count()`. */
    method Count() returns (n: nat)
      requires Valid()
      ensures n == |Elements()| && n < 256
    {
      n := size;
    }

    /** `getPosition(key)`: walks `size_` pairs from the head; the index of
        the pair with that key, -1 when there is none. */
    method GetPosition(key: K) returns (p: int)
      requires Valid()
      ensures p == Position(Elements(), key)
      ensures UniqueKeys(Elements())
    {
      var current := head;
      var i := 0;
      while i < size
        invariant 0 <= i <= size
        invariant current == (if i < |spine| then spine[i] else null)
        invariant forall j :: 0 <= j < i ==> spine[j].key != key
      {
        if current.key == key {
          PositionUnique(Elements(), key, i);
          return i;
        }
        current := current.next;
        i := i + 1;
      }
      p := -1;
    }

    /** `operator[](key)`: the pair with that key, NULL when there is none. */
    method Find(key: K) returns (r: Pair?<K, V>)
      requires Valid()
      ensures r == null <==> Position(Elements(), key) == -1
      ensures r != null ==> r.key == key && r.value == Elements()[Position(Elements(), key)].1
    {
      var current := head;
      ghost var i := 0;
      while current != null
        invariant 0 <= i <= |spine|
        invariant current == (if i < |spine| then spine[i] else null)
        invariant forall j :: 0 <= j < i ==> spine[j].key != key
        decreases |spine| - i
      {
        if current.key == key {
          PositionUnique(Elements(), key, i);
          return current;
        }
        current := current.next;
        i := i + 1;
      }
      r := null;
    }

    /** `getValue(key)` as written: `(*this)[key]->value`, the value stored
        under the key, and a dereference of NULL when there is none. */
    method GetValue(key: K) returns (r: Access<V>)
      requires Valid()
      ensures r == GetValueAsWritten(Elements(), key)
      ensures r.NullDereference? <==> forall i :: 0 <= i < |Elements()| ==> Elements()[i].0 != key
    {
      var pair := Find(key);
      if pair == null {
        return NullDereference;
      }
      r := Value(pair.value);
    }

    /** `getValue(key)` as its documentation promises: the value stored
        under the key, NULL (None) when there is none. */
    method GetValueOrNull(key: K) returns (r: Option<V>)
      requires Valid()
      ensures r == Lookup(Elements(), key)
    {
      var pair := Find(key);
      if pair == null {
        return None;
      }
      r := Some(pair.value);
    }

    /** `get(position)`: the pair that many links from the head, NULL for a
        position out of range. */
    method Get(position: byte) returns (r: Pair?<K, V>)
      requires Valid()
      ensures position >= |Elements()| ==> r == null
      ensures position < |Elements()| ==> r != null && (r.key, r.value) == Elements()[position]
    {
      if position < 0 || position >= size {
        return null;
      }
      var current := head;
      var i := 0;
      while i < position
        invariant 0 <= i <= position
        invariant current == spine[i]
      {
        current := current.next;
        i := i + 1;
      }
      r := current;
    }

    /** `add(key, value)`: a key already present is rejected and nothing
        changes; a new key goes in a new pair at the head. */
    method Add(key: K, value: V) returns (ok: bool)
      requires Valid() && size < 255
      modifies this
      ensures Valid()
      ensures ok <==> Position(old(Elements()), key) == -1
      ensures Elements() == if ok then [(key, value)] + old(Elements()) else old(Elements())
      ensures forall p :: p in spine ==> p in old(spine) || fresh(p)
    {
      var at := GetPosition(key);
      if at != -1 {
        return false;
      }
      ghost var nodes := spine;
      var node := new Pair(key, value);
      node.next := head;
      head := node;
      size := size + 1;
      spine := [node] + nodes;
      Consed(node, nodes);
      ok := true;
    }

    /** `remove(key)`: the loop looks at the key of the pair after the
        current one, so it only finds keys past the head. On an empty map it
        answers false; a key past the head has its pair unlinked, the
        others kept in order; for the head's key or a missing key it reaches
        the last pair and dereferences its NULL link. */
    method Remove(key: K) returns (r: Access<bool>)
      requires Valid()
      modifies this, spine
      ensures Valid()
      ensures old(Elements()) == [] ==> r == Value(false) && Elements() == []
      ensures old(Elements()) != [] && Position(old(Elements()), key) < 1 ==> r == NullDereference && Elements() == old(Elements())
      ensures Position(old(Elements()), key) >= 1 ==>
        && r == Value(true)
        && Elements() == old(Elements())[..Position(old(Elements()), key)] + old(Elements())[Position(old(Elements()), key) + 1..]
    {
      if head == null {
        return Value(false);
      }
      ghost var nodes := spine;
      var current, p := PairBefore(key);
      if current == null {
        return NullDereference;
      }
      var toBeDeleted := current.next;
      current.next := toBeDeleted.next;
      size := size - 1;
      spine := nodes[..p] + nodes[p + 1..];
      Unlinked(nodes, p);
      PairsWithout(nodes, p);
      r := Value(true);
    }

    /** The search loop of `remove(key)` on a non-empty map: the pair
        whose successor has the key, found at position `p`, or NULL when the
        walk reaches the last pair, whose NULL link it then dereferences. */
    method PairBefore(key: K) returns (current: Pair?<K, V>, ghost p: nat)
      requires Valid() && head != null
      ensures current == null <==> Position(Elements(), key) < 1
      ensures current != null ==> 1 <= p < |spine| && p == Position(Elements(), key) && current == spine[p - 1]
    {
      ghost var nodes := spine;
      current := head;
      ghost var i := 0;
      while current != null
        invariant 0 <= i < |nodes| && current == nodes[i]
        invariant forall j :: 0 < j <= i ==> Pairs(nodes)[j].0 != key
        decreases |nodes| - i
      {
        LinkAt(nodes, i);
        if current.next == null {
          NotPastHead(Pairs(nodes), key);
          return null, 0;
        }
        if current.next.key == key {
          break;
        }
        current := current.next;
        i := i + 1;
      }
      p := i + 1;
      assert Pairs(nodes)[p].0 == key;
      PositionUnique(Pairs(nodes), key, p);
    }

    /** `clear()`: unlinks every pair from the head on; the map is left
        empty. */
    method Clear()
      requires Valid()
      modifies this
      ensures Valid() && Elements() == [] && head == null
    {
      ghost var k := 0;
      while head != null
        modifies this`head
        invariant Valid() || 0 < k
        invariant Linked(spine) && 0 <= k <= |spine|
        invariant head == (if k < |spine| then spine[k] else null)
        decreases |spine| - k
      {
        head := head.next;
        k := k + 1;
      }
      size := 0;
      spine := [];
    }
  }

  /** What `(*this)[key]->value` does as written: the pair's value, or a
      dereference of NULL when no pair has the key. */
  datatype Access<V> = Value(v: V) | NullDereference

  function GetValueAsWritten<K(==), V>(es: seq<(K, V)>, k: K): (r: Access<V>)
    ensures r.Value? <==> Lookup(es, k).Some?
    ensures r.Value? ==> Lookup(es, k) == Some(r.v)
  {
    var p := Position(es, k);
    if p == -1 then NullDereference else Value(es[p].1)
  }

  /** `getValue` promises "the element or NULL", yet for a key that is not
      there it dereferences NULL instead of answering NULL: on the empty map
      every key does so. The intended answer is `Lookup`'s None. */
  lemma GetValueOfMissingKey<K, V>(es: seq<(K, V)>, k: K)
    requires Position(es, k) == -1
    ensures GetValueAsWritten(es, k) == NullDereference && Lookup(es, k) == None
  {
  }

  /** A map built by `add` calls and read back through `getValue`: the first
      value added under a key stays; a missing key dereferences NULL as
      written, and answers None as documented. */
  method FirstAddWins() returns (first: bool, second: bool, stored: Access<int>, fault: Access<int>, missing: Option<int>)
    ensures first && !second && stored == Value(7) && fault == NullDereference && missing == None
  {
    var m := new KeyValueMap<int, int>();
    first := m.Add(4, 7);
    second := m.Add(4, 9);
    stored := m.GetValue(4);
    fault := m.GetValue(5);
    missing := m.GetValueOrNull(5);
  }
}
