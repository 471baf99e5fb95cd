/** The sharded store: one shelf per shard identifier, single-key
    operations forwarded to the shelf the key routes to, and the logical
    mapping the store presents to its callers. */
module Store {
  import opened Wrappers
  import opened Routing
  import Paths

  /** The arguments one shelf was opened with. */
  datatype Handle = Handle(path: string, flag: string, protocol: Option<int>, writeback: bool)

  /** An open shelf: how it was opened and what it currently holds. */
  datatype Shelf<V> = Shelf(handle: Handle, data: map<string, V>)

  /** A multishelf: the shelves, indexed by shard identifier. */
  datatype Multishelf<V> = Multishelf(shelves: map<char, Shelf<V>>)

  /** Exactly one shelf per shard identifier. */
  predicate Valid<V>(ms: Multishelf<V>) {
    ms.shelves.Keys == ShardIds
  }

  /** The routing invariant: every key a shelf holds routes to that shelf. */
  predicate Routed<V>(ms: Multishelf<V>) {
    forall c, k :: c in ms.shelves && k in ms.shelves[c].data ==> Route(k) == Ok(c)
  }

  /** Two stores whose shelves were opened identically. */
  predicate SameHandles<V>(a: Multishelf<V>, b: Multishelf<V>) {
    a.shelves.Keys == b.shelves.Keys &&
    forall c :: c in a.shelves ==> b.shelves[c].handle == a.shelves[c].handle
  }

  predicate Covers<V>(ms: Multishelf<V>, cs: seq<char>) {
    forall i :: 0 <= i < |cs| ==> cs[i] in ms.shelves
  }

  /** The union of the shelves listed in `cs`; a later shelf wins a key
      two shelves hold. */
  function MergeShards<V>(ms: Multishelf<V>, cs: seq<char>): (m: map<string, V>)
    requires Covers(ms, cs)
  {
    if cs == [] then map[]
    else MergeShards(ms, cs[..|cs| - 1]) + ms.shelves[cs[|cs| - 1]].data
  }

  /** The logical mapping a store presents: the union of all its shelves. */
  function Contents<V>(ms: Multishelf<V>): (m: map<string, V>)
    requires Valid(ms)
  {
    MergeShards(ms, Alphabet)
  }

  lemma {:induction false} MergeShardsLookup<V>(ms: Multishelf<V>, cs: seq<char>, k: string)
    requires Covers(ms, cs) && Routed(ms)
    ensures k in MergeShards(ms, cs) <==>
              |k| > 0 && ShardOf(k) in cs && k in ms.shelves[ShardOf(k)].data
    ensures k in MergeShards(ms, cs) ==>
              MergeShards(ms, cs)[k] == ms.shelves[ShardOf(k)].data[k]
  {
    if cs != [] {
      var last := cs[|cs| - 1];
      var init := cs[..|cs| - 1];
      MergeShardsLookup(ms, init, k);
      assert cs == init + [last];
      if k in ms.shelves[last].data {
        assert Route(k) == Ok(last);
      }
    }
  }

  /** Under the routing invariant, a key belongs to the store exactly when
      the shelf it routes to holds it, with that shelf's value. */
  lemma ContentsLookup<V>(ms: Multishelf<V>, k: string)
    requires Valid(ms)
    ensures Routed(ms) ==>
              (k in Contents(ms) <==> |k| > 0 && k in ms.shelves[ShardOf(k)].data)
    ensures Routed(ms) && k in Contents(ms) ==>
              Contents(ms)[k] == ms.shelves[ShardOf(k)].data[k]
  {
    if Routed(ms) {
      MergeShardsLookup(ms, Alphabet, k);
    }
  }

  /** A store whose shelves are all empty presents no keys. */
  lemma EmptyShelvesNoContents<V>(ms: Multishelf<V>)
    requires Valid(ms)
    requires forall c :: c in ms.shelves ==> ms.shelves[c].data == map[]
    ensures Routed(ms)
    ensures Contents(ms) == map[]
  {
    forall k
      ensures k !in Contents(ms)
    {
      ContentsLookup(ms, k);
    }
  }

  /** The shelves of a new store, before they hold anything. */
  function FreshShelves<V>(dbDir: string, flag: string, protocol: Option<int>, writeback: bool): (m: map<char, Shelf<V>>)
    ensures m.Keys == ShardIds
    ensures forall c :: c in m ==> m[c].data == map[]
    ensures forall c :: c in m ==> m[c].handle == Handle(Paths.ShelfPath(dbDir, c), flag, protocol, writeback)
  {
    map c | c in ShardIds :: Shelf(Handle(Paths.ShelfPath(dbDir, c), flag, protocol, writeback), map[])
  }

  /** The shelves of a new store are backed by pairwise distinct files. */
  lemma FreshShelvesDistinctPaths<V>(m: map<char, Shelf<V>>, dbDir: string, flag: string, protocol: Option<int>, writeback: bool)
    requires m == FreshShelves(dbDir, flag, protocol, writeback)
    ensures forall c1, c2 :: c1 in m && c2 in m && c1 != c2 ==> m[c1].handle.path != m[c2].handle.path
  {
    forall c1, c2 | c1 in m && c2 in m && c1 != c2
      ensures m[c1].handle.path != m[c2].handle.path
    {
      ShardIdsAreRanges();
      Paths.ShelfPathsDistinct(dbDir, c1, c2);
    }
  }

  /** A freshly created store: one empty shelf per shard identifier, each
      opened at `<dbDir>/<symbol>.db` with the same flag, protocol and
      writeback setting, no two sharing a file. */
  function Open<V>(dbDir: string, flag: string, protocol: Option<int>, writeback: bool): (ms: Multishelf<V>)
    ensures Valid(ms) && Routed(ms)
    ensures |ms.shelves| == 37
    ensures Contents(ms) == map[]
    ensures forall c :: c in ms.shelves ==>
              ms.shelves[c].handle.flag == flag &&
              ms.shelves[c].handle.protocol == protocol &&
              ms.shelves[c].handle.writeback == writeback &&
              ms.shelves[c].handle.path == Paths.ShelfPath(dbDir, c)
    ensures forall c1, c2 :: c1 in ms.shelves && c2 in ms.shelves && c1 != c2 ==>
              ms.shelves[c1].handle.path != ms.shelves[c2].handle.path
  {
    var ms := Multishelf(FreshShelves(dbDir, flag, protocol, writeback));
    assert |ms.shelves| == 37 by {
      ShardCount();
      assert |ms.shelves| == |ms.shelves.Keys|;
    }
    FreshShelvesDistinctPaths(ms.shelves, dbDir, flag, protocol, writeback);
    EmptyShelvesNoContents(ms);
    ms
  }

  /** `store[key]`: look the key up in the shelf it routes to, and only there. */
  function Get<V>(ms: Multishelf<V>, key: string): (r: Result<V>)
    requires Valid(ms)
    ensures |key| == 0 ==> r == Err(IndexError)
    ensures Routed(ms) && |key| > 0 ==> (r.Ok? <==> key in Contents(ms))
    ensures Routed(ms) && r.Ok? ==> r.value == Contents(ms)[key]
    ensures Routed(ms) && |key| > 0 && key !in Contents(ms) ==> r == Err(KeyError(key))
  {
    ContentsLookup(ms, key);
    match Route(key)
    case Err(e) => Err(e)
    case Ok(s) =>
      if key in ms.shelves[s].data then Ok(ms.shelves[s].data[key]) else Err(KeyError(key))
  }

  /** Lookup of `key` depends on nothing but the shelf `key` routes to. */
  lemma GetIsolated<V>(a: Multishelf<V>, b: Multishelf<V>, key: string)
    requires Valid(a) && Valid(b) && |key| > 0
    requires a.shelves[ShardOf(key)] == b.shelves[ShardOf(key)]
    ensures Get(a, key) == Get(b, key)
  {
  }

  /** The store with shelf `s` holding `data` instead. */
  function WithShard<V>(ms: Multishelf<V>, s: char, data: map<string, V>): (r: Multishelf<V>)
    requires s in ms.shelves
    ensures SameHandles(ms, r)
  {
    Multishelf(ms.shelves[s := ms.shelves[s].(data := data)])
  }

  /** Replacing the shelf of `key` by one that differs from it only at
      `key`, and holds `key` only if `key` routes there, keeps the routing
      invariant. */
  lemma ShardWriteRouted<V>(ms: Multishelf<V>, key: string, data: map<string, V>)
    requires Valid(ms) && Routed(ms) && |key| > 0
    requires data - {key} == ms.shelves[ShardOf(key)].data - {key}
    ensures Valid(WithShard(ms, ShardOf(key), data)) && Routed(WithShard(ms, ShardOf(key), data))
  {
    var s := ShardOf(key);
    var ms' := WithShard(ms, s, data);
    forall c, k | c in ms'.shelves && k in ms'.shelves[c].data
      ensures Route(k) == Ok(c)
    {
      if c == s && k != key {
        assert k in (data - {key});
      }
    }
  }

  /** Such a write leaves the store's contents unchanged away from `key`. */
  lemma ShardWriteElsewhere<V>(ms: Multishelf<V>, key: string, data: map<string, V>)
    requires Valid(ms) && Routed(ms) && |key| > 0
    requires data - {key} == ms.shelves[ShardOf(key)].data - {key}
    ensures Valid(WithShard(ms, ShardOf(key), data))
    ensures forall k :: k != key ==>
              (k in Contents(WithShard(ms, ShardOf(key), data)) <==> k in Contents(ms))
    ensures forall k :: k != key && k in Contents(ms) ==>
              Contents(WithShard(ms, ShardOf(key), data))[k] == Contents(ms)[k]
  {
    var s := ShardOf(key);
    var ms' := WithShard(ms, s, data);
    ShardWriteRouted(ms, key, data);
    forall k | k != key
      ensures k in Contents(ms') <==> k in Contents(ms)
      ensures k in Contents(ms) ==> Contents(ms')[k] == Contents(ms)[k]
    {
      ContentsLookup(ms, k);
      ContentsLookup(ms', k);
      if |k| > 0 && ShardOf(k) == s {
        assert k in data <==> k in (data - {key});
        assert k in ms.shelves[s].data <==> k in (ms.shelves[s].data - {key});
      }
    }
  }

  /** The store's contents after writing `data` into the shelf of `key`:
      for a routed store, the old contents with `key` bound as `data`
      binds it. */
  lemma ShardWriteContents<V>(ms: Multishelf<V>, key: string, data: map<string, V>)
    requires Valid(ms) && |key| > 0
    requires data - {key} == ms.shelves[ShardOf(key)].data - {key}
    ensures Valid(WithShard(ms, ShardOf(key), data))
    ensures Routed(ms) ==> Routed(WithShard(ms, ShardOf(key), data))
    ensures Routed(ms) && key in data ==>
              Contents(WithShard(ms, ShardOf(key), data)) == Contents(ms)[key := data[key]]
    ensures Routed(ms) && key !in data ==>
              Contents(WithShard(ms, ShardOf(key), data)) == Contents(ms) - {key}
  {
    if Routed(ms) {
      var ms' := WithShard(ms, ShardOf(key), data);
      ShardWriteRouted(ms, key, data);
      ShardWriteElsewhere(ms, key, data);
      ContentsLookup(ms', key);
      if key in data {
        assert Contents(ms').Keys == Contents(ms).Keys + {key};
      } else {
        assert Contents(ms').Keys == Contents(ms).Keys - {key};
      }
    }
  }

  /** `store[key] = value`: write into the shelf the key routes to. */
  function Set<V>(ms: Multishelf<V>, key: string, value: V): (r: Result<Multishelf<V>>)
    requires Valid(ms)
    ensures r.Err? <==> |key| == 0
    ensures r.Err? ==> r.error == IndexError
    ensures r.Ok? ==> Valid(r.value) && SameHandles(ms, r.value)
    ensures r.Ok? ==> Get(r.value, key) == Ok(value)
    ensures r.Ok? ==> forall c :: c in ms.shelves && c != ShardOf(key) ==> r.value.shelves[c] == ms.shelves[c]
    ensures r.Ok? ==> r.value.shelves[ShardOf(key)].data - {key} == ms.shelves[ShardOf(key)].data - {key}
    ensures r.Ok? && Routed(ms) ==> Routed(r.value)
    ensures r.Ok? && Routed(ms) ==> Contents(r.value) == Contents(ms)[key := value]
  {
    match Route(key)
    case Err(e) => Err(e)
    case Ok(s) =>
      var data := ms.shelves[s].data[key := value];
      assert data - {key} == ms.shelves[s].data - {key};
      ShardWriteContents(ms, key, data);
      Ok(WithShard(ms, s, data))
  }

  /** `del store[key]`: remove the key from the shelf it routes to. */
  function Delete<V>(ms: Multishelf<V>, key: string): (r: Result<Multishelf<V>>)
    requires Valid(ms)
    ensures |key| == 0 ==> r == Err(IndexError)
    ensures |key| > 0 && key !in ms.shelves[ShardOf(key)].data ==> r == Err(KeyError(key))
    ensures r.Ok? <==> |key| > 0 && key in ms.shelves[ShardOf(key)].data
    ensures Routed(ms) ==> (r.Ok? <==> key in Contents(ms))
    ensures r.Ok? ==> Valid(r.value) && SameHandles(ms, r.value)
    ensures r.Ok? ==> Get(r.value, key).Err?
    ensures r.Ok? ==> forall c :: c in ms.shelves && c != ShardOf(key) ==> r.value.shelves[c] == ms.shelves[c]
    ensures r.Ok? ==> r.value.shelves[ShardOf(key)].data == ms.shelves[ShardOf(key)].data - {key}
    ensures r.Ok? && Routed(ms) ==> Routed(r.value)
    ensures r.Ok? && Routed(ms) ==> Contents(r.value) == Contents(ms) - {key}
  {
    ContentsLookup(ms, key);
    match Route(key)
    case Err(e) => Err(e)
    case Ok(s) =>
      if key !in ms.shelves[s].data then Err(KeyError(key))
      else
        var data := ms.shelves[s].data - {key};
        assert data - {key} == ms.shelves[s].data - {key};
        ShardWriteContents(ms, key, data);
        Ok(WithShard(ms, s, data))
  }
}
