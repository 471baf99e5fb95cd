# multishelve in Dafny

A model of `Multishelf`, the sharded key-value facade of the `multishelve`
package. A multishelf owns 37 shelves, one per symbol of the alphabet
`abcdefghijklmnopqrstuvwxyz1234567890#`. Each shelf lives in
`<db_dir>/<symbol>.db`. A key is routed by its first character,
lower-cased: when that is an alphabet symbol, the key lives in that
shelf; otherwise it lives in the fallback shelf `#`. Single-key
operations (`store[key]`, `store[key] = value`, `del store[key]`) touch
only the routed shelf. Iteration and `len` aggregate over all shelves.
`update` from another multishelf merges the shelves pairwise instead of
re-routing each key.

Each shelf is an abstract finite map `map<string, V>` together with the
arguments it was opened with. The store is a map from shard identifier to
shelf, and every operation is a pure function of it. Python exceptions
become values:

- `IndexError` for an empty key;
- `KeyError` for an absent key;
- `TypeError` for an `update` with more than one positional argument.

`update` can raise partway through. Its writes are not rolled back, so it
returns the resulting store together with the exception it raised.

Modules:

- `Wrappers`: `Option`, `Result` and the error values.
- `Routing`: the alphabet and the routing of a key to its shard.
- `Paths`: `os.path.join` on POSIX, used for the shelf file names.
- `Enumeration`: duplicate-free listings of finite sets, standing in for Python's unspecified dict and shelf iteration order.
- `Store`: the multishelf and its construction, `Get`, `Set`, `Delete`, plus `Contents`, the logical mapping the store presents, i.e. the union of its shelves.
- `Aggregates`: `Iter` and `Len`.
- `Updates`: both paths of `update`, and the proof that the shard-wise path agrees with the per-key path.

The routing invariant `Store.Routed` states that every key a shelf holds
routes to that shelf. Construction establishes it, and `Set`, `Delete`
and both `update` paths preserve it. Every statement that the store
"holds each key once" rests on it.

## Model

| member | source | states |
|---|---|---|
| Routing.Route | multishelve/__init__.py:17 | the empty key is rejected with `IndexError`; every other key routes to exactly one identifier, and that identifier is in the 37-symbol alphabet |
| Routing.RouteByFirstCharacter | multishelve/__init__.py:12-17 | an upper-case ASCII letter routes to its lower-case shard; an alphabet symbol (letter, digit or `#`) routes to itself; any other first character routes to `#` |
| Routing.RouteIgnoresRestAndCase | multishelve/__init__.py:17 | keys whose first characters agree up to ASCII case share a shard, whatever follows |
| Routing.AlphabetMembers | multishelve/__init__.py:12 | the alphabet is exactly the lower-case ASCII letters, the ten digits and `#` |
| Routing.ShardIdsAreRanges | multishelve/__init__.py:12 | the same fact for every character at once |
| Routing.ShardCount | multishelve/__init__.py:12 | the alphabet has no repeated symbol, so there are 37 shard identifiers |
| Paths.ShelfPath | multishelve/__init__.py:13 | the file of a shard is the directory, a separator unless the directory is empty or already ends in `/`, then `<symbol>.db`; it lies under the directory |
| Paths.ShelfPathsDistinct | multishelve/__init__.py:12-13 | two different shard symbols never share a backing file |
| Store.FreshShelvesDistinctPaths | multishelve/__init__.py:12-14 | the shelves of a new store have pairwise distinct files |
| Store.EmptyShelvesNoContents | multishelve/__init__.py:11-14 | a store whose shelves are empty satisfies the routing invariant and presents no key |
| Store.Open | multishelve/__init__.py:7-14 | construction gives exactly 37 shelves, one per alphabet symbol; they are empty, satisfy the routing invariant, are opened uniformly, and no two share a file |
| Store.MergeShardsLookup | multishelve/__init__.py:17 | under the routing invariant, a key is in the union of some shelves exactly when its own shelf is among them and holds it, with that shelf's value |
| Store.ContentsLookup | multishelve/__init__.py:16-17 | under the routing invariant, a key is in the store exactly when the shelf it routes to holds it, with that shelf's value |
| Store.Get | multishelve/__init__.py:16-17 | lookup fails with `IndexError` on the empty key; under the routing invariant it succeeds exactly for the keys of the store's contents, returns their value, and otherwise fails with `KeyError` |
| Store.GetIsolated | multishelve/__init__.py:17 | the result of a lookup depends only on the shelf the key routes to |
| Store.ShardWriteRouted | multishelve/__init__.py:19-23 | changing only the key's own shelf, and only at that key, preserves the routing invariant |
| Store.ShardWriteElsewhere | multishelve/__init__.py:19-23 | such a change leaves every other key of the store as it was |
| Store.ShardWriteContents | multishelve/__init__.py:19-23 | such a change keeps the routing invariant and is, on a routed store's contents, a single binding or removal of the key |
| Store.Set | multishelve/__init__.py:19-20 | writing fails only on the empty key, with `IndexError`; afterwards lookup of the key returns the value; no other shelf and no other key of its shelf changes; no handle changes; the routing invariant is preserved; the contents become the old contents with the key bound to the value |
| Store.Delete | multishelve/__init__.py:22-23 | deletion fails with `IndexError` on the empty key and with `KeyError` when the key's shelf lacks it, and succeeds exactly when that shelf holds the key; under the routing invariant that means exactly when the key is stored; it removes the key from its shelf only, after which lookup fails, and the contents lose exactly that key |
| Enumeration.Enumerate | multishelve/__init__.py:26 | a listing of a shelf's keys, or of the shard identifiers, holds each element exactly once and nothing else |
| Aggregates.KeyBagCount | multishelve/__init__.py:26 | chaining distinct shelves lists a key once per shelf that holds it |
| Aggregates.KeyBagOrderIrrelevant | multishelve/__init__.py:26 | the chained keys do not depend on the order in which the shelves are visited |
| Aggregates.KeyBagSize | multishelve/__init__.py:26-29 | the chained listing is as long as the shelves' sizes add up to |
| Aggregates.RoutedHolders | multishelve/__init__.py:17-20 | under the routing invariant the shelves are disjoint: a stored key is held by its own shelf only, and an absent key by none |
| Aggregates.KeyBagRouted | multishelve/__init__.py:25-26 | under the routing invariant the shelves together list every stored key exactly once |
| Aggregates.LenCountsKeys | multishelve/__init__.py:28-29 | under the routing invariant the sum of the shelf sizes equals the number of distinct keys the store holds |
| Aggregates.ChainedShelves | multishelve/__init__.py:25-29 | chaining the shelves in any order of visit lists the same keys as alphabet order, as many as `len` reports, and under the routing invariant each stored key exactly once |
| Aggregates.Iter | multishelve/__init__.py:25-26 | iteration yields each shelf's keys, as many items as `len` reports, in whatever order; under the routing invariant it yields every stored key exactly once |
| Updates.SetAll | multishelve/__init__.py:36-38 | the per-key loop raises only on an unroutable key, and only `IndexError`; it keeps every handle and the routing invariant, even when it stops early |
| Updates.SetAllContents | multishelve/__init__.py:38 | setting routable pairs one by one binds each key to its last value and leaves all other keys alone |
| Updates.SetAllStopsAtFirstFailure | multishelve/__init__.py:38 | a failing per-key update raises `IndexError`, with the pairs before the first unroutable key already written and none after it |
| Updates.ShardMerge | multishelve/__init__.py:34-35 | the shelf-by-shelf copy keeps every handle; each shelf ends up with the keys of both same-named shelves, holding the source shelf's value on every key the source shelf has and its own value elsewhere; the routing invariant survives when both stores satisfy it |
| Updates.ShardMergeContents | multishelve/__init__.py:33-35 | for routed stores, the shelf-by-shelf copy presents the union of both contents, and the source wins shared keys |
| Updates.Update | multishelve/__init__.py:31-38 | `update` always leaves a store with the same shelves and handles; a keyword argument named `self`, or more than one positional argument, raises `TypeError` and changes nothing, and nothing else raises `TypeError`; any other exception is `IndexError`; with no positional argument or one multishelf it raises nothing exactly when every keyword key is routable, and with one pair source exactly when every pair key and every keyword key is routable; it preserves the routing invariant when every multishelf argument satisfies it |
| Updates.UpdateFromKeywords | multishelve/__init__.py:37-38 | `update(**kwds)` with routable keys, none named `self`, raises nothing and leaves the old contents overridden by the keywords, the last value of a key winning |
| Updates.UpdateFromMultishelf | multishelve/__init__.py:31-36 | updating from a multishelf with routable keyword arguments, none named `self`, raises nothing; the result holds the old contents, overridden by the source's, then by the keywords |
| Updates.UpdateFromPairs | multishelve/__init__.py:37-38 | updating from a mapping or pair sequence with routable keys and no keyword named `self` raises nothing; the result holds the old contents, overridden by the pairs (last one wins), then by the keywords |
| Updates.UpdateLookups | multishelve/__init__.py:31-36 | after updating from a multishelf with routable keyword arguments, none named `self`, a keyword key reads as the keyword value; a source key reads as the source value; any other key reads as it did before |
| Updates.SetAllShards | multishelve/__init__.py:38 | writing routable pairs one by one leaves each shelf with exactly the pairs that route to it added on top |
| Updates.ShelfIsRoutedPart | multishelve/__init__.py:17-20 | under the routing invariant, each shelf is exactly the part of the store's contents that routes to it |
| Updates.ShardMergeIsPerKeySet | multishelve/__init__.py:32-35 | merging a routed source shelf by shelf gives the same store as setting each of its bindings through the router, for any listing of them; the destination need not be routed |
| Updates.UpdatePathsAgree | multishelve/__init__.py:31-38 | `update` from a multishelf and `update` from a listing of its bindings yield the same store and the same exception, for any keyword arguments |

The per-key path of `update` follows `MutableMapping.update` from
Python 2's `collections` module. That is standard-library code, not part
of this model: it raises `TypeError` on more than one positional
argument, sets each positional pair in turn, then each keyword pair.
Because `update` names its receiver `self`, a keyword argument `self`
collides with it and Python raises `TypeError` before the body runs;
the model returns the store unchanged with that exception.

## Left out

- The `shelve` engine: pickling, dbm files, writeback caching, and its own I/O errors. A shelf is an abstract map, and an open always succeeds.
- Creating the store directory (`os.path.exists`, `os.makedirs`), which is filesystem I/O.
- Store.Open: models opening a new directory, so every shelf starts empty. Reopening an existing directory and persistence across close and reopen are guarantees of the backing store.
- `sync` and `close`. Each calls the shelves one after another, and the first exception stops the loop. They are I/O fan-out with no state the model tracks.
- Best-effort `sync` and `close` that go on past a failing shelf and report every failure, and a constructor that closes already-opened shelves when a later one fails to open. The code does neither, and the model follows the code.
- The module-level `open` wrapper, which only calls the constructor.
- `keys`, `items`, `values` and the other `MutableMapping` mixins, which are derived from iteration and lookup.
- Laziness of `itertools.chain`. `Iter` returns the whole listing at once.
- Routing.Lower: case-folding is ASCII only, as in Python 2 `str.lower` on byte strings. Unicode keys, whose `lower()` folds more characters, are not modelled.
- Paths.ShelfPath: models `posixpath.join` only. Windows path joining is not modelled.
- Keys that are not strings: Python would fail on `key[0]` or inside `shelve`.
- Keyword arguments are a sequence of pairs in `kwds.items()` order. They are applied in that order, like any other pair.
