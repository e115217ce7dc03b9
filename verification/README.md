# hasheimer in Dafny

A model of `hasheimer`, a small Rust multimap. `Hasheimer<K, V>` wraps a
`HashMap<K, OneOrMany<V>>`. Each key holds either `Single(v)` or `Many(vs)`. The
model keeps the Rust code's behaviour exactly, including its unfinished and
surprising parts:

- `insert` on an absent key stores nothing and returns `None`.
- `insert` on a `Single(a)` key stores `Many([a, v])` and also returns `None`,
  because the entry is removed before `raw_insert` runs.
- `insert` on a `Many` key reaches `todo!()`.
- Indexing a `Many` group reads or writes element 0 for every index.

Files:

- `wrappers.dfy` — module `Wrappers`: the `Option` type returned by lookups.
- `oom.dfy` — module `Oom` (src/oom.rs): the `OneOrMany` datatype, `At` (`Index::index`)
  and `SetAt` (`IndexMut::index_mut`). The predicate `CanIndex` states when they
  panic.
- `multimap.dfy` — module `Multimap` (src/lib.rs): `Hasheimer` and its operations.
  Mutating operations are pure functions that return the new multimap and the
  value the Rust method returns. `CanInsert` states when `insert` panics.
- `intended.dfy` — module `Intended`: the behaviour the code evidently aims at,
  as separate members. Each one is compared with the as-written member
  by a lemma (see "## Findings"). The as-written model does not use these members.

Panics (`panic!`, `todo!`, an out-of-range `Vec` index) are modelled as
preconditions. Keys only need equality. Iteration is modelled as the set of entries.

## Model

| member | source | states |
|---|---|---|
| `Oom.At` | src/oom.rs:8-19 | reading needs index 0 on a `Single` and a non-empty sequence on a `Many`; the result is the group's first value for every index, and on a `Single` it is the stored value |
| `Oom.SetAt` | src/oom.rs:21-31 | writing keeps the variant and the length, puts `x` in the first slot and leaves every other element unchanged, under the same panic preconditions as reading |
| `Oom.CanIndexCases` | src/oom.rs:11-16 | indexing a `Single` succeeds exactly at index 0; indexing a `Many` succeeds at every index exactly when the sequence is non-empty |
| `Oom.SetAtKeepsIndexable` | src/oom.rs:21-31 | after a write, the group can be indexed at exactly the positions it could be indexed at before |
| `Oom.ReadAfterWrite` | src/oom.rs:8-31 | reading any valid index after a write returns the written value |
| `Oom.WriteWhatWasRead` | src/oom.rs:8-31 | writing back the value just read leaves the group unchanged |
| `Oom.SecondWriteWins` | src/oom.rs:21-31 | two writes always hit the same slot, so the second write alone decides the result |
| `Multimap.New` | src/lib.rs:18-21 | a new multimap holds no key |
| `Multimap.Default` | src/lib.rs:96-103 | `default` is `new`, the empty multimap |
| `Multimap.Get` | src/lib.rs:23-29 | `get` answers exactly for present keys, with the stored group |
| `Multimap.GetMut` | src/lib.rs:31-37 | `get_mut` sees what `get` sees; an edit through it replaces only that key's group, and an absent key leaves the map unchanged |
| `Multimap.GetIfSingle` | src/lib.rs:39-49 | answers exactly when the key holds a `Single`, with that value |
| `Multimap.GetIfMultiple` | src/lib.rs:51-61 | answers exactly when the key holds a `Many`, with that sequence |
| `Multimap.RawInsert` | src/lib.rs:78-84 | returns the previous group; afterwards the key holds the new group, one key may be added, and every other key is unchanged |
| `Multimap.Remove` | src/lib.rs:86-88 | returns the previous group; afterwards the key is absent and every other key is unchanged |
| `Multimap.Insert` | src/lib.rs:63-76 | panics on a `Many` key; otherwise returns `None`, leaves the map unchanged on an absent key, turns `Single(a)` into `Many([a, v])`, and changes no other key |
| `Multimap.Iter` | src/lib.rs:90-93 | the entries yielded are exactly the pairs `(k, m[k])` of the map |
| `Multimap.IntoIter` | src/lib.rs:105-114 | consuming iteration yields the same entries as `iter` |
| `Multimap.Extend` | src/lib.rs:116-126 | a left fold of `raw_insert`: the keys become the old keys plus the pairs' keys, the last pair for a key wins, and keys no pair mentions keep their group |
| `Multimap.NewGetsNothing` | src/lib.rs:18-61 | every lookup on a new multimap answers `None` |
| `Multimap.SingleOrMultiple` | src/lib.rs:39-61 | `get_if_single` and `get_if_multiple` never both answer, and one of them answers exactly when `get` does |
| `Multimap.InsertAfterRemove` | src/lib.rs:63-88 | after `remove(k)`, `insert(k, v)` takes the fresh-key branch and stores nothing |
| `Multimap.InsertPromotes` | src/lib.rs:63-67 | after inserting into a `Single(a)` key, `get_if_multiple` gives `[a, v]` and `get_if_single` gives `None` |
| `Multimap.PromotedKeyBlocksInsert` | src/lib.rs:63-71 | the next `insert` into a promoted key reaches `todo!()` |
| `Multimap.ManyHoldTwoPreserved` | src/lib.rs:63-88 | `insert` and `remove` keep every `Many` group at two or more values; `raw_insert` does too when the group it stores has that property |
| `Multimap.IterKeys` | src/lib.rs:90-93 | the keys of the iterated entries are exactly the map's keys |
| `Multimap.IterDeterminesMap` | src/lib.rs:90-93 | two multimaps whose iterations yield the same entries are equal |
| `Multimap.ExtendOverwrites` | src/lib.rs:116-126 | extending with one pair is `raw_insert`: the pair's group replaces the old group with no merging |
| `Multimap.ExtendAppend` | src/lib.rs:116-126 | extending by `p + q` is the same as extending by `p` and then by `q` |
| `Multimap.CollectEntries` | src/lib.rs:105-126 | extending a new multimap with the entries of `into_iter`, in any order, rebuilds the original multimap |
| `Intended.AtIntended` | src/oom.rs:16 | corrected read: returns the value at position `i`, and fails past the end |
| `Intended.SetAtIntended` | src/oom.rs:28 | corrected write: sets position `i` to `x` and keeps the variant |
| `Intended.IntendedReadAfterWrite` | src/oom.rs:16-28 | with corrected indexing, a write is read back at its own position and no other position changes |
| `Intended.IntendedBoundsCheck` | src/oom.rs:16 | position 2 of a two-value `Many` is accepted as written but out of range as intended |
| `Intended.AgreeAtZero` | src/oom.rs:8-31 | the as-written and corrected indexing agree at position 0 |
| `Intended.ManyIndexIgnoresPosition` | src/oom.rs:16-28 | `Many([a, b])[1]` reads `a` as written but `b` as intended, and the two writes differ too |
| `Intended.InsertIntended` | src/lib.rs:63-76 | corrected insert: returns the previous group, appends `v` to the key's values, makes the group `Single` exactly for a fresh key, and changes no other key |
| `Intended.InsertAllAccumulates` | src/lib.rs:63-76 | repeated corrected inserts collect the values in insertion order, keeping duplicates; the group is `Many` from the second value on |
| `Intended.InsertAllKeepsOthers` | src/lib.rs:63-76 | repeated corrected inserts under one key leave every other key unchanged |
| `Intended.ThreeInserts` | src/lib.rs:63-76 | three corrected inserts into a fresh key return nothing, then `Single(v1)`, then `Many([v1, v2])`, and each step's lookups give what is expected |
| `Intended.IntendedInsertAfterRemove` | src/lib.rs:63-88 | after `remove(k)`, the corrected insert behaves like a first insert |
| `Intended.InsertFreshDropsValue` | src/lib.rs:73-75 | on a fresh key, the as-written insert stores nothing, while the corrected insert stores `Single(v)` |
| `Intended.InsertSingleLosesPrevious` | src/lib.rs:64-67 | on a `Single(a)` key, both versions leave the same map, but only the corrected insert returns `Single(a)` |
| `Intended.IntendedManyHoldTwo` | src/lib.rs:63-76 | the corrected insert keeps every `Many` group at two or more values |

## Left out

- Hashing, `Borrow<Q>` and `?Sized` lookup: keys are a Dafny type with equality, and
  lookups take the key itself.
- `HashMap` iteration order: it is unspecified, so `iter` and `into_iter` are sets
  of entries, not sequences.
- References and mutable aliasing: `get_mut` and `index_mut` are pure updates that
  return a new value. `GetMut` takes the edit as a function argument.
- The map's state after a panic: `insert` on a `Many` key (`todo!()` after pushing
  onto the removed vector) and bad indexing are preconditions only.
- The `usize` index: it is a `nat`, since no arithmetic is done on it.
- Memory, ownership, drop order and `#[must_use]`: these do not affect the values
  computed.
- `Multimap.Iter`, `Multimap.IntoIter`: ghost functions, because a Dafny set of
  entries needs equality on `V`, which the Rust type does not require.

## Findings

| source | as written | input that shows it | evidently intended | confidence | as-written member | corrected member |
|---|---|---|---|---|---|---|
| src/lib.rs:73-75 | `insert` on an absent key removes nothing and returns `None` without storing `v` | `insert(k, v)` on `Hasheimer::new()`; afterwards `get(k)` is `None` | store `Single(v)` and return `None` | high, not executed | `Intended.InsertFreshDropsValue` | `Intended.InsertIntended` |
| src/lib.rs:64-67 | `insert` on a `Single(a)` key removes the entry, so `raw_insert` returns `None` | `insert(k, v)` where `k` holds `Single(a)` returns `None` | return the previous group `Single(a)` | medium, not executed | `Intended.InsertSingleLosesPrevious` | `Intended.InsertIntended` |
| src/oom.rs:16 | `index` on `Many(vs)` reads `vs[0]` for every index | `Many([a, b])[1]` with `a != b` gives `a` | read `vs[i]` | high, not executed | `Intended.ManyIndexIgnoresPosition` | `Intended.AtIntended` |
| src/oom.rs:28 | `index_mut` on `Many(vs)` writes `vs[0]` for every index | `Many([a, b])[1] = b` gives `Many([b, b])` | write `vs[i]` | high, not executed | `Intended.ManyIndexIgnoresPosition` | `Intended.SetAtIntended` |
