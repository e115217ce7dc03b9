/**
 The multimap `Hasheimer<K, V>`: a unique-key map from keys to value groups
 (`OneOrMany<V>`). Every operation passes through to the underlying map; the only
 logic of its own is `Insert`, which decides between a fresh key, promoting a
 `Single` group to `Many`, and appending to a `Many` group.

 Mutating operations are pure functions that return the new multimap together
 with what the operation returns. Hashing and borrowed-key lookup are left to the
 map's key equality; iteration is the set of entries, since the order is unspecified.
 */
module Multimap {
  import opened Wrappers
  import opened Oom

  datatype Hasheimer<K(==), V> = Hasheimer(inner: map<K, OneOrMany<V>>)

  /** Every key other than `k` has the same group, or the same absence, in `h` and `h'`. */
  ghost predicate SameElsewhere<K, V>(h: Hasheimer<K, V>, h': Hasheimer<K, V>, k: K)
  {
    && (forall k' :: k' in h.inner && k' != k ==> k' in h'.inner && h'.inner[k'] == h.inner[k'])
    && (forall k' :: k' in h'.inner && k' != k ==> k' in h.inner)
  }

  /** Agreement away from `k` chains. */
  lemma SameElsewhereTrans<K, V>(h1: Hasheimer<K, V>, h2: Hasheimer<K, V>, h3: Hasheimer<K, V>, k: K)
    requires SameElsewhere(h1, h2, k) && SameElsewhere(h2, h3, k)
    ensures SameElsewhere(h1, h3, k)
  {
  }

  /** A key/group pair, as `iter`, `into_iter` and `extend` see them. */
  type Entry<K, V> = (K, OneOrMany<V>)

  /** `Hasheimer::new()`: no key has a group. */
  function New<K(==), V>(): (h: Hasheimer<K, V>)
    ensures forall k :: k !in h.inner
  {
    Hasheimer(map[])
  }

  /** `Hasheimer::default()`, which delegates to `new`. */
  function Default<K(==), V>(): (h: Hasheimer<K, V>)
    ensures h == New()
    ensures |h.inner| == 0
  {
    New()
  }

  /** `get(k)`: the group stored under `k`, if any. */
  function Get<K(==), V>(h: Hasheimer<K, V>, k: K): (r: Option<OneOrMany<V>>)
    ensures r.Some? <==> k in h.inner
    ensures r.Some? ==> r.value == h.inner[k]
  {
    if k in h.inner then Some(h.inner[k]) else None
  }

  /**
   `get_mut(k)` followed by an edit through the returned reference. `seen` is what
   `get_mut` returns; when the key is present, `edit` replaces its group.
   */
  function GetMut<K(==), V>(h: Hasheimer<K, V>, k: K, edit: OneOrMany<V> -> OneOrMany<V>)
    : (r: (Hasheimer<K, V>, Option<OneOrMany<V>>))
    ensures r.1 == Get(h, k)
    ensures r.0.inner.Keys == h.inner.Keys
    ensures k in h.inner ==> r.0.inner[k] == edit(h.inner[k])
    ensures SameElsewhere(h, r.0, k)
  {
    if k in h.inner then (Hasheimer(h.inner[k := edit(h.inner[k])]), Some(h.inner[k]))
    else (h, None)
  }

  /** `get_if_single(k)`: the value, only when `k` holds a `Single` group. */
  function GetIfSingle<K(==), V>(h: Hasheimer<K, V>, k: K): (r: Option<V>)
    ensures r.Some? <==> Get(h, k).Some? && Get(h, k).value.Single?
    ensures r.Some? ==> h.inner[k] == Single(r.value)
  {
    match Get(h, k)
    case Some(Single(v)) => Some(v)
    case _ => None
  }

  /** `get_if_multiple(k)`: the sequence, only when `k` holds a `Many` group. */
  function GetIfMultiple<K(==), V>(h: Hasheimer<K, V>, k: K): (r: Option<seq<V>>)
    ensures r.Some? <==> Get(h, k).Some? && Get(h, k).value.Many?
    ensures r.Some? ==> h.inner[k] == Many(r.value)
  {
    match Get(h, k)
    case Some(Many(vs)) => Some(vs)
    case _ => None
  }

  /** `raw_insert(k, g)`: overwrites the entry for `k` and returns the previous group. */
  function RawInsert<K(==), V>(h: Hasheimer<K, V>, k: K, g: OneOrMany<V>)
    : (r: (Hasheimer<K, V>, Option<OneOrMany<V>>))
    ensures r.1 == Get(h, k)
    ensures Get(r.0, k) == Some(g)
    ensures r.0.inner.Keys == h.inner.Keys + {k}
    ensures SameElsewhere(h, r.0, k)
  {
    (Hasheimer(h.inner[k := g]), Get(h, k))
  }

  /** `remove(k)`: drops the entry for `k` and returns the group it held. */
  function Remove<K(==), V>(h: Hasheimer<K, V>, k: K): (r: (Hasheimer<K, V>, Option<OneOrMany<V>>))
    ensures r.1 == Get(h, k)
    ensures Get(r.0, k) == None
    ensures r.0.inner.Keys == h.inner.Keys - {k}
    ensures SameElsewhere(h, r.0, k)
  {
    (Hasheimer(h.inner - {k}), Get(h, k))
  }

  /** True when `insert(k, _)` does not reach the unfinished `todo!()` branch. */
  predicate CanInsert<K(==), V>(h: Hasheimer<K, V>, k: K)
  {
    k !in h.inner || h.inner[k].Single?
  }

  /**
   `insert(k, v)` as written: the existing entry is removed first. An absent key
   gets nothing stored (the value is dropped); a `Single(a)` key is re-inserted as
   `Many([a, v])` through `raw_insert`, which then finds no previous entry. Both
   reachable branches return `None`.
   */
  function Insert<K(==), V>(h: Hasheimer<K, V>, k: K, v: V): (r: (Hasheimer<K, V>, Option<OneOrMany<V>>))
    requires CanInsert(h, k)
    ensures r.1 == None
    ensures k !in h.inner ==> r.0 == h
    ensures k in h.inner ==> Get(r.0, k) == Some(Many(Elements(h.inner[k]) + [v]))
    ensures r.0.inner.Keys == h.inner.Keys
    ensures SameElsewhere(h, r.0, k)
  {
    var (removed, replaced) := Remove(h, k);
    match replaced
    case None =>
      assert removed.inner == h.inner;
      (removed, None)
    case Some(Single(ele)) =>
      assert [ele, v] == Elements(h.inner[k]) + [v];
      RawInsert(removed, k, Many([ele, v]))
    case Some(Many(_)) => assert false; (removed, None)
  }

  /** `iter()`: exactly the entries of the map, in no particular order. */
  ghost function Iter<K, V>(h: Hasheimer<K, V>): (es: set<Entry<K, V>>)
    ensures forall e :: e in es ==> e.0 in h.inner && h.inner[e.0] == e.1
    ensures forall k :: k in h.inner ==> (k, h.inner[k]) in es
  {
    set k | k in h.inner :: (k, h.inner[k])
  }

  /** `into_iter()`: the same entries as `iter`, now owned by the caller. */
  ghost function IntoIter<K, V>(h: Hasheimer<K, V>): (es: set<Entry<K, V>>)
    ensures es == Iter(h)
  {
    set k | k in h.inner :: (k, h.inner[k])
  }

  /** The keys the pairs carry. */
  function PairKeys<K(==), V>(pairs: seq<Entry<K, V>>): (ks: set<K>)
    ensures forall j :: 0 <= j < |pairs| ==> pairs[j].0 in ks
    decreases |pairs|
  {
    if |pairs| == 0 then {}
    else
      var n := |pairs| - 1;
      assert forall j :: 0 <= j < n ==> pairs[..n][j] == pairs[j];
      PairKeys(pairs[..n]) + {pairs[n].0}
  }

  /** The position of the last pair carrying `k`; every key `PairKeys` yields has one. */
  function LastIndex<K(==), V>(pairs: seq<Entry<K, V>>, k: K): (j: nat)
    requires k in PairKeys(pairs)
    ensures j < |pairs| && pairs[j].0 == k
    ensures forall j' :: j < j' < |pairs| ==> pairs[j'].0 != k
    decreases |pairs|
  {
    var n := |pairs| - 1;
    if pairs[n].0 == k then n else LastIndex(pairs[..n], k)
  }

  /**
   `extend(pairs)`: a left fold of `raw_insert` over the pairs. The last pair for a
   key wins; keys no pair mentions keep their group. No promotion takes place.
   */
  function Extend<K(==), V>(h: Hasheimer<K, V>, pairs: seq<Entry<K, V>>): (r: Hasheimer<K, V>)
    ensures r.inner.Keys == h.inner.Keys + PairKeys(pairs)
    ensures forall k :: k in PairKeys(pairs) ==> r.inner[k] == pairs[LastIndex(pairs, k)].1
    ensures forall k :: k in h.inner && k !in PairKeys(pairs) ==> r.inner[k] == h.inner[k]
    decreases |pairs|
  {
    if |pairs| == 0 then h
    else
      var n := |pairs| - 1;
      var front := Extend(h, pairs[..n]);
      RawInsert(front, pairs[n].0, pairs[n].1).0
  }

  // ---------------------------------------------------------------------------
  // Properties of the operations
  // ---------------------------------------------------------------------------

  /** A new multimap answers `None` to every lookup. */
  lemma NewGetsNothing<K, V>(k: K)
    ensures Get(New<K, V>(), k) == None
    ensures GetIfSingle(New<K, V>(), k) == None && GetIfMultiple(New<K, V>(), k) == None
  {
  }

  /** `get_if_single` and `get_if_multiple` never both answer, and one of them
      answers exactly when `get` does. */
  lemma SingleOrMultiple<K, V>(h: Hasheimer<K, V>, k: K)
    ensures !(GetIfSingle(h, k).Some? && GetIfMultiple(h, k).Some?)
    ensures Get(h, k).Some? <==> GetIfSingle(h, k).Some? || GetIfMultiple(h, k).Some?
  {
  }

  /** After `remove(k)`, an `insert(k, v)` takes the fresh-key branch: it stores nothing. */
  lemma InsertAfterRemove<K, V>(h: Hasheimer<K, V>, k: K, v: V)
    ensures CanInsert(Remove(h, k).0, k)
    ensures Insert(Remove(h, k).0, k, v) == (Remove(h, k).0, None)
  {
  }

  /** A `Single(a)` key is promoted to `Many([a, v])`; `get_if_multiple` then sees both
      values in insertion order and `get_if_single` sees nothing. */
  lemma InsertPromotes<K, V>(h: Hasheimer<K, V>, k: K, a: V, v: V)
    requires Get(h, k) == Some(Single(a))
    ensures GetIfMultiple(Insert(h, k, v).0, k) == Some([a, v])
    ensures GetIfSingle(Insert(h, k, v).0, k) == None
  {
  }

  /** A promoted key cannot be inserted into again: the next `insert` reaches `todo!()`. */
  lemma PromotedKeyBlocksInsert<K, V>(h: Hasheimer<K, V>, k: K, a: V, v: V)
    requires Get(h, k) == Some(Single(a))
    ensures !CanInsert(Insert(h, k, v).0, k)
  {
  }

  /** Every `Many` group holds at least two values. */
  ghost predicate ManyHoldTwo<K, V>(h: Hasheimer<K, V>)
  {
    forall k :: k in h.inner && h.inner[k].Many? ==> |h.inner[k].vs| >= 2
  }

  /** `insert` and `remove` keep every `Many` group at two values or more; `raw_insert`
      does so when the group it stores does. */
  lemma ManyHoldTwoPreserved<K, V>(h: Hasheimer<K, V>, k: K, v: V, g: OneOrMany<V>)
    requires ManyHoldTwo(h)
    ensures CanInsert(h, k) ==> ManyHoldTwo(Insert(h, k, v).0)
    ensures ManyHoldTwo(Remove(h, k).0)
    ensures (g.Many? ==> |g.vs| >= 2) ==> ManyHoldTwo(RawInsert(h, k, g).0)
  {
  }

  /** The entries `iter` yields have exactly the map's keys. */
  lemma IterKeys<K, V>(h: Hasheimer<K, V>)
    ensures (set e | e in Iter(h) :: e.0) == h.inner.Keys
  {
  }

  /** Iteration is complete: two multimaps with the same entries are equal. */
  lemma IterDeterminesMap<K, V>(h1: Hasheimer<K, V>, h2: Hasheimer<K, V>)
    requires Iter(h1) == Iter(h2)
    ensures h1 == h2
  {
  }

  /** Extending with one pair is `raw_insert`: the pair's group replaces whatever the key
      held, with no accumulation. */
  lemma ExtendOverwrites<K, V>(h: Hasheimer<K, V>, k: K, g: OneOrMany<V>)
    ensures Extend(h, [(k, g)]) == RawInsert(h, k, g).0
    ensures Get(Extend(h, [(k, g)]), k) == Some(g)
  {
  }

  /** Extending by `p + q` is extending by `p`, then by `q`. */
  lemma {:induction false} ExtendAppend<K, V>(h: Hasheimer<K, V>, p: seq<Entry<K, V>>, q: seq<Entry<K, V>>)
    ensures Extend(h, p + q) == Extend(Extend(h, p), q)
    decreases |q|
  {
    if |q| == 0 {
      assert p + q == p;
    } else {
      var n := |q| - 1;
      assert (p + q)[..|p + q| - 1] == p + q[..n];
      ExtendAppend(h, p, q[..n]);
    }
  }

  /** Collecting the entries `into_iter` yields, in any order, back into a new multimap
      through `extend` gives the original multimap. */
  lemma CollectEntries<K, V>(h: Hasheimer<K, V>, s: seq<Entry<K, V>>)
    requires forall e :: e in s <==> e in IntoIter(h)
    ensures Extend(New(), s) == h
  {
    var r := Extend(New(), s);
    forall k | k in h.inner ensures k in PairKeys(s) {
      var e := (k, h.inner[k]);
      assert e in IntoIter(h);
      assert e in s;
      var j :| 0 <= j < |s| && s[j] == e;
    }
    forall k | k in PairKeys(s) ensures k in h.inner && r.inner[k] == h.inner[k] {
      var j := LastIndex(s, k);
      assert s[j] in s;
      assert s[j] in IntoIter(h);
    }
    assert r.inner == h.inner;
  }
}
