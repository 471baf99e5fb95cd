/** `update`: a multishelf source is merged shelf by shelf without
    re-routing its keys; any other source, and the keyword arguments, are
    written key by key through the router. */
module Updates {
  import opened Wrappers
  import opened Routing
  import opened Store

  /** The positional argument of `update`. */
  datatype Source<V> =
    | FromMultishelf(store: Multishelf<V>)
      // a mapping's items in its iteration order, or an iterable of pairs
    | FromPairs(pairs: seq<(string, V)>)

  /** The state after a call that may raise midway: writes made before the
      exception are kept, and `raised` names the exception, if any. */
  datatype Outcome<V> = Outcome(store: Multishelf<V>, raised: Option<Error>)

  /** The mapping `dict(pairs)` builds: a later pair wins a repeated key. */
  function ToMap<V>(pairs: seq<(string, V)>): (m: map<string, V>)
  {
    if pairs == [] then map[] else map[pairs[0].0 := pairs[0].1] + ToMap(pairs[1..])
  }

  /** The keyword arguments bind `self`, a name `update` already gives
      its receiver. */
  predicate BindsSelf<V>(kwds: seq<(string, V)>) {
    exists i :: 0 <= i < |kwds| && kwds[i].0 == "self"
  }

  /** Every key of `pairs` can be routed. */
  predicate AllRoutable<V>(pairs: seq<(string, V)>) {
    forall i :: 0 <= i < |pairs| ==> |pairs[i].0| > 0
  }

  /** The bindings of `m` whose keys route to shard `c`. */
  function RoutedTo<V>(m: map<string, V>, c: char): (part: map<string, V>)
  {
    map k | k in m && Route(k) == Ok(c) :: m[k]
  }

  lemma ToMapKeys<V>(pairs: seq<(string, V)>, k: string)
    ensures k in ToMap(pairs) <==> exists i :: 0 <= i < |pairs| && pairs[i].0 == k
  {
    if pairs != [] {
      ToMapKeys(pairs[1..], k);
      if k in ToMap(pairs[1..]) {
        var i :| 0 <= i < |pairs[1..]| && pairs[1..][i].0 == k;
        assert pairs[i + 1].0 == k;
      }
      if exists i :: 0 <= i < |pairs| && pairs[i].0 == k {
        var i :| 0 <= i < |pairs| && pairs[i].0 == k;
        if i > 0 {
          assert pairs[1..][i - 1].0 == k;
        }
      }
    }
  }

  lemma AllRoutableCons<V>(pairs: seq<(string, V)>)
    requires pairs != []
    ensures AllRoutable(pairs) <==> |pairs[0].0| > 0 && AllRoutable(pairs[1..])
  {
    if |pairs[0].0| > 0 && AllRoutable(pairs[1..]) {
      forall i | 0 <= i < |pairs| ensures |pairs[i].0| > 0 {
        if i > 0 {
          assert pairs[i] == pairs[1..][i - 1];
        }
      }
    }
  }

  /** `for key, value in pairs: store[key] = value`, stopping at the first
      key that cannot be routed. */
  function SetAll<V>(ms: Multishelf<V>, pairs: seq<(string, V)>): (o: Outcome<V>)
    requires Valid(ms)
    ensures Valid(o.store) && SameHandles(ms, o.store)
    ensures Routed(ms) ==> Routed(o.store)
    ensures o.raised.None? <==> AllRoutable(pairs)
    ensures o.raised.Some? ==> o.raised == Some(IndexError)
    decreases |pairs|
  {
    if pairs == [] then Outcome(ms, None)
    else
      AllRoutableCons(pairs);
      match Set(ms, pairs[0].0, pairs[0].1)
      case Err(e) => Outcome(ms, Some(e))
      case Ok(next) => SetAll(next, pairs[1..])
  }

  /** Setting the pairs one by one into a routed store binds every key of
      `pairs` to its last value and leaves every other key as it was. */
  lemma {:induction false} SetAllContents<V>(ms: Multishelf<V>, pairs: seq<(string, V)>)
    requires Valid(ms) && Routed(ms) && AllRoutable(pairs)
    ensures SetAll(ms, pairs).raised == None
    ensures Contents(SetAll(ms, pairs).store) == Contents(ms) + ToMap(pairs)
    decreases |pairs|
  {
    if pairs != [] {
      AllRoutableCons(pairs);
      var (k, v) := pairs[0];
      var next := Set(ms, k, v).value;
      SetAllContents(next, pairs[1..]);
      UpdateThenUnion(Contents(ms), k, v, ToMap(pairs[1..]));
    }
  }

  lemma UpdateThenUnion<K, V>(m: map<K, V>, k: K, v: V, t: map<K, V>)
    ensures m[k := v] + t == m + (map[k := v] + t)
  {
  }

  /** A failed per-key update has written exactly the pairs before the
      first unroutable key. */
  lemma {:induction false} SetAllStopsAtFirstFailure<V>(ms: Multishelf<V>, pairs: seq<(string, V)>, i: nat)
    requires Valid(ms)
    requires i < |pairs| && |pairs[i].0| == 0
    requires forall j :: 0 <= j < i ==> |pairs[j].0| > 0
    ensures SetAll(ms, pairs) == Outcome(SetAll(ms, pairs[..i]).store, Some(IndexError))
    decreases i
  {
    if i == 0 {
      SetAllFailsAtHead(ms, pairs);
    } else {
      var rest := pairs[1..];
      var prefix := pairs[..i];
      assert prefix[0] == pairs[0];
      assert prefix[1..] == rest[..i - 1];
      assert rest[i - 1] == pairs[i];
      assert forall j :: 0 <= j < i - 1 ==> rest[j] == pairs[j + 1];
      var next := SetAllCons(ms, pairs);
      var next' := SetAllCons(ms, prefix);
      assert next' == next;
      SetAllStopsAtFirstFailure(next, rest, i - 1);
      assert SetAll(ms, prefix) == SetAll(next, rest[..i - 1]);
    }
  }

  /** The per-key loop on an unroutable first key writes nothing. */
  lemma SetAllFailsAtHead<V>(ms: Multishelf<V>, pairs: seq<(string, V)>)
    requires Valid(ms) && pairs != [] && |pairs[0].0| == 0
    ensures SetAll(ms, pairs) == Outcome(ms, Some(IndexError))
    ensures SetAll(ms, pairs[..0]) == Outcome(ms, None)
  {
    assert pairs[..0] == [];
  }

  /** One step of the per-key loop on a routable first key. */
  lemma SetAllCons<V>(ms: Multishelf<V>, pairs: seq<(string, V)>) returns (next: Multishelf<V>)
    requires Valid(ms) && pairs != [] && |pairs[0].0| > 0
    ensures Set(ms, pairs[0].0, pairs[0].1) == Ok(next)
    ensures Valid(next)
    ensures SetAll(ms, pairs) == SetAll(next, pairs[1..])
  {
    next := Set(ms, pairs[0].0, pairs[0].1).value;
  }

  /** `shelf.update(other_shelf)` for every shard identifier: each shelf
      takes on the bindings of the source's shelf of the same name,
      overwriting its own. */
  function ShardMerge<V>(ms: Multishelf<V>, src: Multishelf<V>): (r: Multishelf<V>)
    requires Valid(ms) && Valid(src)
    ensures Valid(r) && SameHandles(ms, r)
    ensures forall c :: c in r.shelves ==>
              r.shelves[c].data.Keys == ms.shelves[c].data.Keys + src.shelves[c].data.Keys
    ensures forall c, k :: c in r.shelves && k in src.shelves[c].data ==>
              r.shelves[c].data[k] == src.shelves[c].data[k]
    ensures forall c, k :: c in r.shelves && k in ms.shelves[c].data && k !in src.shelves[c].data ==>
              r.shelves[c].data[k] == ms.shelves[c].data[k]
    ensures Routed(ms) && Routed(src) ==> Routed(r)
  {
    Multishelf(map c | c in ms.shelves :: ms.shelves[c].(data := ms.shelves[c].data + src.shelves[c].data))
  }

  /** With both stores routed, the shard-wise merge presents the union of
      their contents, the source winning a key both hold. */
  lemma ShardMergeContents<V>(ms: Multishelf<V>, src: Multishelf<V>)
    requires Valid(ms) && Valid(src) && Routed(ms) && Routed(src)
    ensures Contents(ShardMerge(ms, src)) == Contents(ms) + Contents(src)
  {
    var r := ShardMerge(ms, src);
    forall k
      ensures k in Contents(r) <==> k in Contents(ms) + Contents(src)
      ensures k in Contents(r) ==> Contents(r)[k] == (Contents(ms) + Contents(src))[k]
    {
      ContentsLookup(ms, k);
      ContentsLookup(src, k);
      ContentsLookup(r, k);
    }
  }

  /** `update(*args, **kwds)`. A keyword argument named `self` collides
      with the receiver and raises `TypeError` before anything runs. With
      exactly one positional argument that is a multishelf, the shelves are
      merged pairwise and the keyword arguments are then set one by one;
      otherwise the generic mapping update runs: more than one positional
      argument raises `TypeError`, the positional pairs are set one by one,
      then the keyword arguments. */
  function Update<V>(ms: Multishelf<V>, args: seq<Source<V>>, kwds: seq<(string, V)>): (o: Outcome<V>)
    requires Valid(ms)
    requires forall i :: 0 <= i < |args| && args[i].FromMultishelf? ==> Valid(args[i].store)
    ensures Valid(o.store) && SameHandles(ms, o.store)
    ensures |args| > 1 || BindsSelf(kwds) ==> o == Outcome(ms, Some(TypeError))
    ensures o.raised == Some(TypeError) <==> |args| > 1 || BindsSelf(kwds)
    ensures o.raised.Some? ==> o.raised == Some(TypeError) || o.raised == Some(IndexError)
    ensures !BindsSelf(kwds) && (|args| == 0 || (|args| == 1 && args[0].FromMultishelf?)) ==>
              (o.raised.None? <==> AllRoutable(kwds))
    ensures !BindsSelf(kwds) && |args| == 1 && args[0].FromPairs? ==>
              (o.raised.None? <==> AllRoutable(args[0].pairs) && AllRoutable(kwds))
    ensures Routed(ms) && (forall i :: 0 <= i < |args| && args[i].FromMultishelf? ==> Routed(args[i].store)) ==>
              Routed(o.store)
  {
    if BindsSelf(kwds) then
      Outcome(ms, Some(TypeError))
    else if |args| == 1 && args[0].FromMultishelf? then
      SetAll(ShardMerge(ms, args[0].store), kwds)
    else if |args| > 1 then
      Outcome(ms, Some(TypeError))
    else if |args| == 0 then
      SetAll(ms, kwds)
    else
      var first := SetAll(ms, args[0].pairs);
      if first.raised.Some? then first else SetAll(first.store, kwds)
  }

  /** Updating from keyword arguments alone: each keyword key gets its
      last value, and other keys are untouched. */
  lemma UpdateFromKeywords<V>(ms: Multishelf<V>, kwds: seq<(string, V)>)
    requires Valid(ms) && Routed(ms)
    requires AllRoutable(kwds) && !BindsSelf(kwds)
    ensures Update(ms, [], kwds).raised == None
    ensures Contents(Update(ms, [], kwds).store) == Contents(ms) + ToMap(kwds)
  {
    SetAllContents(ms, kwds);
  }

  /** Updating from another multishelf: every key of the source gets the
      source's value, keys the source lacks are untouched, and keyword
      arguments, applied last, override both. */
  lemma UpdateFromMultishelf<V>(ms: Multishelf<V>, src: Multishelf<V>, kwds: seq<(string, V)>)
    requires Valid(ms) && Routed(ms) && Valid(src) && Routed(src)
    requires AllRoutable(kwds) && !BindsSelf(kwds)
    ensures Update(ms, [FromMultishelf(src)], kwds).raised == None
    ensures Contents(Update(ms, [FromMultishelf(src)], kwds).store) == Contents(ms) + Contents(src) + ToMap(kwds)
  {
    ShardMergeContents(ms, src);
    SetAllContents(ShardMerge(ms, src), kwds);
  }

  /** Updating from pairs: every key of `pairs` gets its last value there,
      other keys are untouched, and keyword arguments, applied last,
      override both. */
  lemma UpdateFromPairs<V>(ms: Multishelf<V>, pairs: seq<(string, V)>, kwds: seq<(string, V)>)
    requires Valid(ms) && Routed(ms)
    requires AllRoutable(pairs) && AllRoutable(kwds) && !BindsSelf(kwds)
    ensures Update(ms, [FromPairs(pairs)], kwds).raised == None
    ensures Contents(Update(ms, [FromPairs(pairs)], kwds).store) == Contents(ms) + ToMap(pairs) + ToMap(kwds)
  {
    SetAllContents(ms, pairs);
    SetAllContents(SetAll(ms, pairs).store, kwds);
  }

  /** A write into shelf `c` of the pair `(k, v)`, seen through the
      bindings that route to `c`. */
  lemma RoutedToStep<V>(d: map<string, V>, k: string, v: V, c: char, t: map<string, V>)
    requires |k| > 0
    ensures ShardOf(k) == c ==> d[k := v] + RoutedTo(t, c) == d + RoutedTo(map[k := v] + t, c)
    ensures ShardOf(k) != c ==> d + RoutedTo(t, c) == d + RoutedTo(map[k := v] + t, c)
  {
    if ShardOf(k) != c {
      assert RoutedTo(t, c) == RoutedTo(map[k := v] + t, c);
    }
  }

  /** After a successful write, the key's shelf is its old shelf with the
      key bound to the new value. */
  lemma SetShelf<V>(ms: Multishelf<V>, k: string, v: V)
    requires Valid(ms) && |k| > 0
    ensures Set(ms, k, v).value.shelves[ShardOf(k)] ==
              ms.shelves[ShardOf(k)].(data := ms.shelves[ShardOf(k)].data[k := v])
  {
    var s := ShardOf(k);
    var after := Set(ms, k, v).value.shelves[s];
    assert after.handle == ms.shelves[s].handle;
    assert after.data == ms.shelves[s].data[k := v] by {
      assert Get(Set(ms, k, v).value, k) == Ok(v);
      assert after.data - {k} == ms.shelves[s].data - {k};
      forall x | x != k ensures x in after.data <==> x in ms.shelves[s].data {
        assert x in after.data <==> x in after.data - {k};
        assert x in ms.shelves[s].data <==> x in ms.shelves[s].data - {k};
      }
      forall x | x != k && x in after.data ensures after.data[x] == ms.shelves[s].data[x] {
        assert x in after.data - {k};
      }
    }
  }

  /** Per-key writes, seen shelf by shelf: each shelf takes on exactly the
      bindings of `pairs` that route to it. */
  lemma {:induction false} SetAllShards<V>(ms: Multishelf<V>, pairs: seq<(string, V)>)
    requires Valid(ms) && AllRoutable(pairs)
    ensures SetAll(ms, pairs).raised == None
    ensures forall c :: c in ms.shelves ==>
              SetAll(ms, pairs).store.shelves[c] ==
                ms.shelves[c].(data := ms.shelves[c].data + RoutedTo(ToMap(pairs), c))
    decreases |pairs|
  {
    if pairs == [] {
      forall c | c in ms.shelves
        ensures ms.shelves[c].data + RoutedTo(ToMap(pairs), c) == ms.shelves[c].data
      {
        assert RoutedTo(ToMap(pairs), c) == map[];
      }
    } else {
      AllRoutableCons(pairs);
      var (k, v) := pairs[0];
      var next := Set(ms, k, v).value;
      SetAllShards(next, pairs[1..]);
      SetShelf(ms, k, v);
      forall c | c in ms.shelves
        ensures SetAll(ms, pairs).store.shelves[c] ==
                  ms.shelves[c].(data := ms.shelves[c].data + RoutedTo(ToMap(pairs), c))
      {
        RoutedToStep(ms.shelves[c].data, k, v, c, ToMap(pairs[1..]));
      }
    }
  }

  /** Under the routing invariant each shelf holds exactly the store's
      bindings that route to it. */
  lemma ShelfIsRoutedPart<V>(ms: Multishelf<V>, c: char)
    requires Valid(ms) && Routed(ms) && c in ms.shelves
    ensures ms.shelves[c].data == RoutedTo(Contents(ms), c)
  {
    forall k
      ensures k in ms.shelves[c].data <==> k in RoutedTo(Contents(ms), c)
      ensures k in ms.shelves[c].data ==> ms.shelves[c].data[k] == Contents(ms)[k]
    {
      ContentsLookup(ms, k);
      if k in ms.shelves[c].data {
        assert Route(k) == Ok(c);
      }
    }
  }

  /** The shard-by-shard merge is the per-key update it replaces: merging
      the shelves of a routed source gives the very store that setting
      each of the source's bindings through the router gives, for any
      listing of those bindings. Only the source needs to be routed. */
  lemma ShardMergeIsPerKeySet<V>(ms: Multishelf<V>, src: Multishelf<V>, pairs: seq<(string, V)>)
    requires Valid(ms) && Valid(src) && Routed(src)
    requires ToMap(pairs) == Contents(src)
    ensures SetAll(ms, pairs) == Outcome(ShardMerge(ms, src), None)
  {
    forall i | 0 <= i < |pairs|
      ensures |pairs[i].0| > 0
    {
      ToMapKeys(pairs, pairs[i].0);
      ContentsLookup(src, pairs[i].0);
    }
    SetAllShards(ms, pairs);
    var a := SetAll(ms, pairs).store;
    var b := ShardMerge(ms, src);
    forall c | c in ms.shelves
      ensures a.shelves[c] == ms.shelves[c].(data := ms.shelves[c].data + src.shelves[c].data)
    {
      ShelfIsRoutedPart(src, c);
    }
    assert b.shelves == map c | c in ms.shelves :: ms.shelves[c].(data := ms.shelves[c].data + src.shelves[c].data);
    assert a.shelves == b.shelves;
  }

  /** Both paths of `update` agree: updating from a multishelf gives the
      same store, and raises the same exception, as updating from a
      listing of its bindings. */
  lemma UpdatePathsAgree<V>(ms: Multishelf<V>, src: Multishelf<V>, pairs: seq<(string, V)>, kwds: seq<(string, V)>)
    requires Valid(ms) && Valid(src) && Routed(src)
    requires ToMap(pairs) == Contents(src)
    ensures Update(ms, [FromMultishelf(src)], kwds) == Update(ms, [FromPairs(pairs)], kwds)
  {
    ShardMergeIsPerKeySet(ms, src, pairs);
  }

  /** What a caller sees after updating from another multishelf: the
      source wins every key it holds, keys it lacks are looked up as
      before, and keyword arguments override both. */
  lemma UpdateLookups<V>(ms: Multishelf<V>, src: Multishelf<V>, kwds: seq<(string, V)>, k: string)
    requires Valid(ms) && Routed(ms) && Valid(src) && Routed(src)
    requires AllRoutable(kwds) && !BindsSelf(kwds)
    ensures k in ToMap(kwds) ==>
              Get(Update(ms, [FromMultishelf(src)], kwds).store, k) == Ok(ToMap(kwds)[k])
    ensures k !in ToMap(kwds) && k in Contents(src) ==>
              Get(Update(ms, [FromMultishelf(src)], kwds).store, k) == Ok(Contents(src)[k])
    ensures k !in ToMap(kwds) && k !in Contents(src) ==>
              Get(Update(ms, [FromMultishelf(src)], kwds).store, k) == Get(ms, k)
  {
    UpdateFromMultishelf(ms, src, kwds);
    if k in ToMap(kwds) {
      ToMapKeys(kwds, k);
    }
    ContentsLookup(src, k);
  }
}
