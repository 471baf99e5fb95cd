/** Whole-store operations: iteration chains the shelves' key listings and
    length sums the shelves' sizes. Both are correct counts of the
    store's keys only because of the routing invariant. */
module Aggregates {
  import opened Wrappers
  import opened Routing
  import opened Enumeration
  import opened Store

  /** The keys of the shelves `cs` names, counted once per shelf holding them. */
  function KeyBag<V>(ms: Multishelf<V>, cs: seq<char>): (bag: multiset<string>)
    requires Covers(ms, cs)
  {
    if cs == [] then multiset{}
    else KeyBag(ms, cs[..|cs| - 1]) + multiset(ms.shelves[cs[|cs| - 1]].data.Keys)
  }

  /** The sum of the sizes of the shelves `cs` names. */
  function SumSizes<V>(ms: Multishelf<V>, cs: seq<char>): (n: nat)
    requires Covers(ms, cs)
  {
    if cs == [] then 0
    else SumSizes(ms, cs[..|cs| - 1]) + |ms.shelves[cs[|cs| - 1]].data|
  }

  /** `len(store)`: the sum of the shelves' sizes (addition does not depend
      on the order the shelves are visited in). */
  function Len<V>(ms: Multishelf<V>): (n: nat)
    requires Valid(ms)
  {
    SumSizes(ms, Alphabet)
  }

  /** The shelves among `cs` that hold `k`. */
  function Holders<V>(ms: Multishelf<V>, k: string, cs: seq<char>): (holders: set<char>)
  {
    set c | c in cs && c in ms.shelves && k in ms.shelves[c].data
  }

  /** Listing distinct shelves, a key is counted once per shelf holding it. */
  lemma {:induction false} KeyBagCount<V>(ms: Multishelf<V>, cs: seq<char>, k: string)
    requires Covers(ms, cs) && Distinct(cs)
    ensures KeyBag(ms, cs)[k] == |Holders(ms, k, cs)|
  {
    if cs != [] {
      var init, last := cs[..|cs| - 1], cs[|cs| - 1];
      assert Distinct(init);
      KeyBagCount(ms, init, k);
      assert last !in init;
      if k in ms.shelves[last].data {
        assert Holders(ms, k, cs) == Holders(ms, k, init) + {last};
      } else {
        assert Holders(ms, k, cs) == Holders(ms, k, init);
      }
    }
  }

  /** The shelves' keys do not depend on the order the shelves are listed in. */
  lemma KeyBagOrderIrrelevant<V>(ms: Multishelf<V>, cs: seq<char>, ds: seq<char>)
    requires Covers(ms, cs) && Distinct(cs)
    requires Covers(ms, ds) && Distinct(ds)
    requires forall c :: c in cs <==> c in ds
    ensures KeyBag(ms, cs) == KeyBag(ms, ds)
  {
    forall k
      ensures KeyBag(ms, cs)[k] == KeyBag(ms, ds)[k]
    {
      KeyBagCount(ms, cs, k);
      KeyBagCount(ms, ds, k);
      assert Holders(ms, k, cs) == Holders(ms, k, ds);
    }
  }

  /** The listing of the shelves' keys is as long as the shelves' sizes add up to. */
  lemma {:induction false} KeyBagSize<V>(ms: Multishelf<V>, cs: seq<char>)
    requires Covers(ms, cs)
    ensures |KeyBag(ms, cs)| == SumSizes(ms, cs)
  {
    if cs != [] {
      KeyBagSize(ms, cs[..|cs| - 1]);
      var d := ms.shelves[cs[|cs| - 1]].data;
      assert |multiset(d.Keys)| == |d.Keys| == |d|;
    }
  }

  /** Under the routing invariant the shelves are disjoint: a key is held
      by at most one shelf, the one it routes to. */
  lemma RoutedHolders<V>(ms: Multishelf<V>, k: string)
    requires Valid(ms) && Routed(ms)
    ensures k in Contents(ms) ==> |k| > 0 && Holders(ms, k, Alphabet) == {ShardOf(k)}
    ensures k !in Contents(ms) ==> Holders(ms, k, Alphabet) == {}
  {
    ContentsLookup(ms, k);
    forall c | c in Holders(ms, k, Alphabet)
      ensures |k| > 0 && c == ShardOf(k) && k in Contents(ms)
    {
      assert Route(k) == Ok(c);
    }
    if k in Contents(ms) {
      assert ShardOf(k) in Holders(ms, k, Alphabet);
    }
  }

  /** Under the routing invariant every stored key is listed exactly once. */
  lemma KeyBagRouted<V>(ms: Multishelf<V>)
    requires Valid(ms) && Routed(ms)
    ensures KeyBag(ms, Alphabet) == multiset(Contents(ms).Keys)
  {
    ShardCount();
    forall k
      ensures KeyBag(ms, Alphabet)[k] == multiset(Contents(ms).Keys)[k]
    {
      KeyBagCount(ms, Alphabet, k);
      RoutedHolders(ms, k);
    }
  }

  /** Under the routing invariant the length of a store is the number of
      distinct keys it holds: no key is counted twice. */
  lemma LenCountsKeys<V>(ms: Multishelf<V>)
    requires Valid(ms) && Routed(ms)
    ensures Len(ms) == |Contents(ms)|
  {
    KeyBagSize(ms, Alphabet);
    KeyBagRouted(ms);
    assert |multiset(Contents(ms).Keys)| == |Contents(ms).Keys|;
  }

  /** Visiting one more shelf adds its keys to the chained listing. */
  lemma KeyBagExtend<V>(ms: Multishelf<V>, cs: seq<char>, i: nat)
    requires Covers(ms, cs) && i < |cs|
    ensures KeyBag(ms, cs[..i + 1]) == KeyBag(ms, cs[..i]) + multiset(ms.shelves[cs[i]].data.Keys)
  {
    assert cs[..i + 1][..i] == cs[..i];
  }

  /** What chaining the shelves in any order of visit amounts to. */
  lemma ChainedShelves<V>(ms: Multishelf<V>, order: seq<char>)
    requires Valid(ms) && Covers(ms, order) && Distinct(order)
    requires forall c :: c in order <==> c in ms.shelves
    ensures KeyBag(ms, order) == KeyBag(ms, Alphabet)
    ensures |KeyBag(ms, order)| == Len(ms)
    ensures Routed(ms) ==> KeyBag(ms, order) == multiset(Contents(ms).Keys)
  {
    ShardCount();
    KeyBagOrderIrrelevant(ms, order, Alphabet);
    KeyBagSize(ms, Alphabet);
    if Routed(ms) {
      KeyBagRouted(ms);
    }
  }

  /** `iter(store)`: the keys of every shelf, shelf after shelf. Neither the
      order of the shelves nor the order within a shelf is fixed. */
  method Iter<V>(ms: Multishelf<V>) returns (ks: seq<string>)
    requires Valid(ms)
    ensures multiset(ks) == KeyBag(ms, Alphabet)
    ensures |ks| == Len(ms)
    ensures Routed(ms) ==> multiset(ks) == multiset(Contents(ms).Keys)
  {
    var order := Enumerate(ms.shelves.Keys);
    assert Covers(ms, order);
    ks := [];
    var i := 0;
    while i < |order|
      invariant 0 <= i <= |order|
      invariant multiset(ks) == KeyBag(ms, order[..i])
    {
      var keys := Enumerate(ms.shelves[order[i]].data.Keys);
      KeyBagExtend(ms, order, i);
      ks := ks + keys;
      i := i + 1;
    }
    assert order[..|order|] == order;
    ChainedShelves(ms, order);
  }
}
