/**
 The value group stored under one key of the multimap: either a single value or
 a sequence of values, with positional read (`index`) and positional write
 (`index_mut`). Both positional operations panic on misuse; the panics are the
 preconditions below.

 As written, both positional operations on a `Many` group reach element 0 whatever
 position is asked for; they fail only when the sequence is empty.
 */
module Oom {

  datatype OneOrMany<V> = Single(v: V) | Many(vs: seq<V>)

  /** The values a group holds, in order. */
  function Elements<V>(g: OneOrMany<V>): seq<V>
  {
    match g
    case Single(v) => [v]
    case Many(vs) => vs
  }

  /** True when reading or writing position `i` of `g` does not panic. */
  predicate CanIndex<V>(g: OneOrMany<V>, i: nat)
  {
    match g
    case Single(_) => i == 0
    case Many(vs) => |vs| > 0
  }

  /** `g[i]`: position 0 of a `Single`, and the first element of a `Many` for every `i`. */
  function At<V>(g: OneOrMany<V>, i: nat): (x: V)
    requires CanIndex(g, i)
    ensures x == Elements(g)[0]
    ensures g.Single? ==> i == 0 && x == g.v
  {
    match g
    case Single(v) => v
    case Many(vs) => vs[0]
  }

  /** `g[i] = x`: overwrites the one slot `At(g, i)` reads; nothing else changes. */
  function SetAt<V>(g: OneOrMany<V>, i: nat, x: V): (g': OneOrMany<V>)
    requires CanIndex(g, i)
    ensures g'.Single? <==> g.Single?
    ensures |Elements(g')| == |Elements(g)|
    ensures Elements(g')[0] == x
    ensures forall j :: 0 < j < |Elements(g)| ==> Elements(g')[j] == Elements(g)[j]
  {
    match g
    case Single(_) => Single(x)
    case Many(vs) => Many(vs[0 := x])
  }

  /** A `Single` group can be indexed exactly at position 0; a `Many` group at every
      position exactly when it is non-empty. */
  lemma CanIndexCases<V>(g: OneOrMany<V>, i: nat)
    ensures CanIndex(g, i) <==> (i == 0 && g.Single?) || (g.Many? && |Elements(g)| > 0)
  {
  }

  /** Writing keeps a group indexable at every position it was indexable at. */
  lemma SetAtKeepsIndexable<V>(g: OneOrMany<V>, i: nat, x: V, j: nat)
    requires CanIndex(g, i)
    ensures CanIndex(SetAt(g, i, x), j) <==> CanIndex(g, j)
  {
  }

  /** Reading back any indexable position after a write returns the written value. */
  lemma ReadAfterWrite<V>(g: OneOrMany<V>, i: nat, x: V, j: nat)
    requires CanIndex(g, i) && CanIndex(g, j)
    ensures At(SetAt(g, i, x), j) == x
  {
  }

  /** Writing back the value just read leaves the group as it was. */
  lemma WriteWhatWasRead<V>(g: OneOrMany<V>, i: nat)
    requires CanIndex(g, i)
    ensures SetAt(g, i, At(g, i)) == g
  {
  }

  /** Two writes hit the same slot, so the second one alone decides the result. */
  lemma SecondWriteWins<V>(g: OneOrMany<V>, i: nat, x: V, j: nat, y: V)
    requires CanIndex(g, i) && CanIndex(g, j)
    ensures SetAt(SetAt(g, i, x), j, y) == SetAt(g, j, y)
  {
  }
}
