/**
 The behaviour the code evidently aims at, kept apart from the
 as-written model in `Oom` and `Multimap`:

 - positional access on a `Many` group reaches the requested position, and fails
   past the end;
 - `insert` stores a fresh key as `Single(v)`, promotes `Single(a)` to `Many([a, v])`,
   appends to a `Many` group, and always returns the group the key held before.

 Each corrected member is set against its as-written counterpart by a lemma that
 names an input on which the two differ.
 */
module Intended {
  import opened Wrappers
  import opened Oom
  import opened Multimap

  // ---------------------------------------------------------------------------
  // Positional access
  // ---------------------------------------------------------------------------

  /** `g[i]` as intended: the `i`-th value of the group. */
  function AtIntended<V>(g: OneOrMany<V>, i: nat): (x: V)
    requires i < |Elements(g)|
    ensures g.Single? ==> i == 0 && x == g.v
    ensures g.Many? ==> x == g.vs[i]
  {
    match g
    case Single(v) => v
    case Many(vs) => vs[i]
  }

  /** `g[i] = x` as intended: the `i`-th value becomes `x`, the variant is kept. */
  function SetAtIntended<V>(g: OneOrMany<V>, i: nat, x: V): (g': OneOrMany<V>)
    requires i < |Elements(g)|
    ensures g'.Single? <==> g.Single?
    ensures Elements(g') == Elements(g)[i := x]
  {
    match g
    case Single(_) => Single(x)
    case Many(vs) => Many(vs[i := x])
  }

  /** The intended positions are independent: a write is read back at its own position
      and leaves every other position alone. */
  lemma IntendedReadAfterWrite<V>(g: OneOrMany<V>, i: nat, x: V, j: nat)
    requires i < |Elements(g)| && j < |Elements(g)|
    ensures AtIntended(SetAtIntended(g, i, x), j) == if i == j then x else AtIntended(g, j)
  {
  }

  /** Exactly the positions the intended indexing accepts are in range, and past the
      end of a `Many` group it fails where the as-written one does not. */
  lemma IntendedBoundsCheck<V>(a: V, b: V)
    ensures CanIndex(Many([a, b]), 2) && !(2 < |Elements(Many([a, b]))|)
  {
  }

  /** As written and as intended agree on position 0. */
  lemma AgreeAtZero<V>(g: OneOrMany<V>, x: V)
    requires CanIndex(g, 0)
    ensures At(g, 0) == AtIntended(g, 0)
    ensures SetAt(g, 0, x) == SetAtIntended(g, 0, x)
  {
  }

  /** `Many([a, b])[1]` reads `a` as written, where `b` is intended. */
  lemma ManyIndexIgnoresPosition<V>(a: V, b: V)
    requires a != b
    ensures At(Many([a, b]), 1) == a
    ensures AtIntended(Many([a, b]), 1) == b
    ensures SetAt(Many([a, b]), 1, b) != SetAtIntended(Many([a, b]), 1, b)
  {
  }

  // ---------------------------------------------------------------------------
  // Insertion
  // ---------------------------------------------------------------------------

  /** The values stored under `k`, empty for an absent key. */
  function ValuesOf<K(==), V>(h: Hasheimer<K, V>, k: K): seq<V>
  {
    if k in h.inner then Elements(h.inner[k]) else []
  }

  /**
   `insert(k, v)` as intended: `v` is appended to the values of `k`, a fresh key
   gets a `Single` group, a present key a `Many` group, and the previous group
   is returned.
   */
  function InsertIntended<K(==), V>(h: Hasheimer<K, V>, k: K, v: V)
    : (r: (Hasheimer<K, V>, Option<OneOrMany<V>>))
    ensures r.1 == Get(h, k)
    ensures k in r.0.inner && ValuesOf(r.0, k) == ValuesOf(h, k) + [v]
    ensures r.0.inner[k].Single? <==> k !in h.inner
    ensures r.0.inner.Keys == h.inner.Keys + {k}
    ensures SameElsewhere(h, r.0, k)
  {
    var (removed, replaced) := Remove(h, k);
    match replaced
    case None => RawInsert(removed, k, Single(v))
    case Some(Single(ele)) => (RawInsert(removed, k, Many([ele, v])).0, replaced)
    case Some(Many(vs)) => (RawInsert(removed, k, Many(vs + [v])).0, replaced)
  }

  /** Intended `insert` of each value of `vs` under `k`, in order. */
  function InsertAll<K(==), V>(h: Hasheimer<K, V>, k: K, vs: seq<V>): Hasheimer<K, V>
    decreases |vs|
  {
    if |vs| == 0 then h
    else InsertIntended(InsertAll(h, k, vs[..|vs| - 1]), k, vs[|vs| - 1]).0
  }

  /** Values accumulate in insertion order, duplicates kept; the group is `Many` from
      the second value on. */
  lemma {:induction false} InsertAllAccumulates<K, V>(h: Hasheimer<K, V>, k: K, vs: seq<V>)
    ensures ValuesOf(InsertAll(h, k, vs), k) == ValuesOf(h, k) + vs
    ensures |vs| > 0 ==> (InsertAll(h, k, vs).inner[k].Single? <==> k !in h.inner && |vs| == 1)
    decreases |vs|
  {
    if |vs| == 0 {
      assert ValuesOf(h, k) + vs == ValuesOf(h, k);
    } else {
      var n := |vs| - 1;
      var front := InsertAll(h, k, vs[..n]);
      InsertAllAccumulates(h, k, vs[..n]);
      assert vs == vs[..n] + [vs[n]];
      assert ValuesOf(h, k) + vs == (ValuesOf(h, k) + vs[..n]) + [vs[n]];
      assert k in front.inner <==> k in h.inner || n > 0;
    }
  }

  /** Repeated inserts under `k` leave every other key untouched. */
  lemma {:induction false} InsertAllKeepsOthers<K, V>(h: Hasheimer<K, V>, k: K, vs: seq<V>)
    ensures SameElsewhere(h, InsertAll(h, k, vs), k)
    decreases |vs|
  {
    if |vs| > 0 {
      var n := |vs| - 1;
      InsertAllKeepsOthers(h, k, vs[..n]);
      var front := InsertAll(h, k, vs[..n]);
      SameElsewhereTrans(h, front, InsertIntended(front, k, vs[n]).0, k);
    }
  }

  /** Inserting `v1`, `v2`, `v3` under a fresh key returns no group, then `Single(v1)`,
      then `Many([v1, v2])`, and leaves `Many([v1, v2, v3])`. */
  lemma ThreeInserts<K, V>(h: Hasheimer<K, V>, k: K, v1: V, v2: V, v3: V)
    requires k !in h.inner
    ensures var (h1, p1) := InsertIntended(h, k, v1);
            var (h2, p2) := InsertIntended(h1, k, v2);
            var (h3, p3) := InsertIntended(h2, k, v3);
            && p1 == None && p2 == Some(Single(v1)) && p3 == Some(Many([v1, v2]))
            && GetIfSingle(h1, k) == Some(v1) && GetIfMultiple(h1, k) == None
            && GetIfMultiple(h2, k) == Some([v1, v2]) && GetIfSingle(h2, k) == None
            && GetIfMultiple(h3, k) == Some([v1, v2, v3])
  {
    var (h1, p1) := InsertIntended(h, k, v1);
    var (h2, p2) := InsertIntended(h1, k, v2);
    var (h3, p3) := InsertIntended(h2, k, v3);
    assert ValuesOf(h1, k) == [v1];
    assert ValuesOf(h2, k) == [v1, v2];
    assert ValuesOf(h3, k) == [v1, v2, v3];
  }

  /** After `remove(k)`, the intended `insert(k, v)` behaves as a first insert. */
  lemma IntendedInsertAfterRemove<K, V>(h: Hasheimer<K, V>, k: K, v: V)
    ensures InsertIntended(Remove(h, k).0, k, v).1 == None
    ensures Get(InsertIntended(Remove(h, k).0, k, v).0, k) == Some(Single(v))
  {
  }

  /** On a fresh key the as-written `insert` drops `v`, where `Single(v)` is intended. */
  lemma InsertFreshDropsValue<K, V>(h: Hasheimer<K, V>, k: K, v: V)
    requires k !in h.inner
    ensures Get(Insert(h, k, v).0, k) == None
    ensures Get(InsertIntended(h, k, v).0, k) == Some(Single(v))
  {
  }

  /** On a `Single(a)` key both store `Many([a, v])`, but the as-written `insert` returns
      `None` where `Single(a)` is intended. */
  lemma InsertSingleLosesPrevious<K, V>(h: Hasheimer<K, V>, k: K, a: V, v: V)
    requires Get(h, k) == Some(Single(a))
    ensures Insert(h, k, v).0 == InsertIntended(h, k, v).0
    ensures Insert(h, k, v).1 == None
    ensures InsertIntended(h, k, v).1 == Some(Single(a))
  {
  }

  /** The intended `insert` keeps every `Many` group at two values or more. */
  lemma IntendedManyHoldTwo<K, V>(h: Hasheimer<K, V>, k: K, v: V)
    requires ManyHoldTwo(h)
    ensures ManyHoldTwo(InsertIntended(h, k, v).0)
  {
  }
}
