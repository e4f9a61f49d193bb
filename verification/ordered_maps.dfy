/** JavaScript's keyed collections with number keys: a `Map` (or a plain
    object used as a record) keeps one value per key, and remembers the
    order in which keys were first set.  `map.set(k, v)` on a present key
    replaces the value and keeps the key's position.  `Object.keys` of a
    plain object lists integer-like keys (array indices) in ascending order
    before all other keys, which follow in creation order (section
    10.1.11.1 of ECMA-262, OrdinaryOwnPropertyKeys). */
module OrderedMaps {
  import opened Wrappers
  import opened Seqs

  /** A `Map<number, V>` or `Record<number, V>` mutated in place. */
  class OrderedMap<V> {
    var keys: seq<int>
    var entries: map<int, V>

    ghost predicate Valid()
      reads this
    {
      Distinct(keys) && (forall k :: k in entries <==> k in keys)
    }

    constructor ()
      ensures Valid() && keys == [] && entries == map[]
    {
      keys := [];
      entries := map[];
    }

    /** `map.get(k)`, or `record[k]`, which is undefined for a missing key. */
    function Get(k: int): Option<V>
      reads this
    {
      if k in entries then Some(entries[k]) else None
    }

    /** `map.set(k, v)`, or `record[k] = v`. */
    method Set(k: int, v: V)
      requires Valid()
      modifies this
      ensures Valid()
      ensures entries == old(entries)[k := v]
      ensures keys == if k in old(entries) then old(keys) else old(keys) + [k]
    {
      if k !in entries {
        keys := keys + [k];
      }
      entries := entries[k := v];
    }

    /** `Array.from(map.values())`. */
    function Values(): seq<V>
      reads this
      requires Valid()
    {
      assert forall i :: 0 <= i < |keys| ==> keys[i] in entries by {
        forall i | 0 <= i < |keys| ensures keys[i] in entries {
          var k := keys[i];
          assert k in keys;
          assert Valid();
        }
      }
      ValuesAt(keys, entries)
    }
  }

  /** The values held under `ks`, in the order of `ks`. */
  function ValuesAt<V>(ks: seq<int>, m: map<int, V>): (vs: seq<V>)
    requires forall i :: 0 <= i < |ks| ==> ks[i] in m
    ensures |vs| == |ks|
  {
    seq(|ks|, i requires 0 <= i < |ks| && ks[i] in m => m[ks[i]])
  }

  // ------------------------------------------------------------------
  // What a sequence of `set` calls leaves behind, given the (key, value)
  // pairs in call order.

  /** The keys in the order of their first `set`. */
  function KeyOrder<V>(e: seq<(int, V)>): seq<int> {
    if e == [] then []
    else
      var ks := KeyOrder(e[..|e| - 1]);
      if e[|e| - 1].0 in ks then ks else ks + [e[|e| - 1].0]
  }

  /** The value each key holds: that of its last `set`. */
  function LastMap<V>(e: seq<(int, V)>): map<int, V> {
    if e == [] then map[]
    else LastMap(e[..|e| - 1])[e[|e| - 1].0 := e[|e| - 1].1]
  }

  /** The keys ever set. */
  function KeysOf<V>(e: seq<(int, V)>): set<int> {
    set j | 0 <= j < |e| :: e[j].0
  }

  /** The key order has no repetitions, and both the key order and the map
      hold exactly the keys ever set. */
  lemma {:induction false} KeyOrderFacts<V>(e: seq<(int, V)>)
    ensures Distinct(KeyOrder(e))
    ensures forall k :: k in KeyOrder(e) <==> k in KeysOf(e)
    ensures LastMap(e).Keys == KeysOf(e)
  {
    if e != [] {
      var init := e[..|e| - 1];
      KeyOrderFacts(init);
      assert KeysOf(e) == KeysOf(init) + {e[|e| - 1].0} by {
        forall k | k in KeysOf(e) ensures k in KeysOf(init) + {e[|e| - 1].0} {
          var j :| 0 <= j < |e| && e[j].0 == k;
          if j < |e| - 1 { assert init[j] == e[j]; }
        }
        forall k | k in KeysOf(init) ensures k in KeysOf(e) {
          var j :| 0 <= j < |init| && init[j].0 == k;
          assert e[j] == init[j];
        }
      }
    }
  }

  /** A key in the key order has a value. */
  lemma KeyOrderInMap<V>(e: seq<(int, V)>)
    ensures forall i :: 0 <= i < |KeyOrder(e)| ==> KeyOrder(e)[i] in LastMap(e)
  {
    KeyOrderFacts(e);
    forall i | 0 <= i < |KeyOrder(e)| ensures KeyOrder(e)[i] in LastMap(e) {
      assert KeyOrder(e)[i] in KeyOrder(e);
    }
  }

  /** The pair at index `j` is the last one with key `k`. */
  predicate IsLastFor<V>(e: seq<(int, V)>, k: int, j: int) {
    0 <= j < |e| && e[j].0 == k && forall j' :: j < j' < |e| ==> e[j'].0 != k
  }

  /** For duplicate keys the last pair wins: the value held for `k` comes
      from a pair with key `k` after which no pair has key `k`. */
  lemma {:induction false} LastWins<V>(e: seq<(int, V)>, k: int)
    requires k in LastMap(e)
    ensures exists j :: IsLastFor(e, k, j) && LastMap(e)[k] == e[j].1
  {
    var n := |e| - 1;
    if e[n].0 == k {
      assert LastMap(e)[k] == e[n].1;
    } else {
      var init := e[..n];
      LastWins(init, k);
      var j :| IsLastFor(init, k, j) && LastMap(init)[k] == init[j].1;
      assert e[j] == init[j];
      forall j' | j < j' < |e| ensures e[j'].0 != k {
        if j' < n { assert e[j'] == init[j']; }
      }
      assert IsLastFor(e, k, j);
    }
  }

  /** `Array.from(map.values())` after the calls recorded in `e`. */
  function MapValues<V>(e: seq<(int, V)>): (vs: seq<V>)
    ensures |vs| == |KeyOrder(e)|
  {
    KeyOrderFacts(e);
    assert forall i :: 0 <= i < |KeyOrder(e)| ==> KeyOrder(e)[i] in KeyOrder(e);
    ValuesAt(KeyOrder(e), LastMap(e))
  }

  /** One step of a loop of `set` calls keeps an ordered map in step with
      the pairs it has been given so far. */
  lemma StepSet<V>(e: seq<(int, V)>, k: int, v: V)
    ensures KeyOrder(e + [(k, v)]) == if k in LastMap(e) then KeyOrder(e) else KeyOrder(e) + [k]
    ensures LastMap(e + [(k, v)]) == LastMap(e)[k := v]
  {
    assert (e + [(k, v)])[..|e|] == e;
    KeyOrderFacts(e);
  }

  // ------------------------------------------------------------------
  // A record of lists filled by `record[k] ||= []; record[k].push(x)`.

  /** The list held under each key after the pushes recorded in `e`. */
  function GroupMap<L>(e: seq<(int, L)>): map<int, seq<L>> {
    if e == [] then map[]
    else
      var g := GroupMap(e[..|e| - 1]);
      var k := e[|e| - 1].0;
      g[k := (if k in g then g[k] else []) + [e[|e| - 1].1]]
  }

  /** The values pushed under key `k`, in push order. */
  function Select<L>(e: seq<(int, L)>, k: int): seq<L> {
    if e == [] then []
    else Select(e[..|e| - 1], k) + (if e[|e| - 1].0 == k then [e[|e| - 1].1] else [])
  }

  /** Every pushed value sits in the list of its own key, in push order, and
      the record holds exactly the keys pushed to. */
  lemma {:induction false} GroupMapSpec<L>(e: seq<(int, L)>)
    ensures GroupMap(e).Keys == KeysOf(e)
    ensures forall k :: k in GroupMap(e) ==> GroupMap(e)[k] == Select(e, k)
  {
    if e != [] {
      var init := e[..|e| - 1];
      GroupMapSpec(init);
      KeyOrderFacts(init);
      KeyOrderFacts(e);
      var k := e[|e| - 1].0;
      assert KeysOf(e) == KeysOf(init) + {k} by {
        forall x | x in KeysOf(e) ensures x in KeysOf(init) + {k} {
          var j :| 0 <= j < |e| && e[j].0 == x;
          if j < |e| - 1 { assert init[j] == e[j]; }
        }
        forall x | x in KeysOf(init) ensures x in KeysOf(e) {
          var j :| 0 <= j < |init| && init[j].0 == x;
          assert e[j] == init[j];
        }
      }
      if k !in GroupMap(init) {
        SelectAbsent(init, k);
      }
    }
  }

  lemma {:induction false} SelectAbsent<L>(e: seq<(int, L)>, k: int)
    requires k !in KeysOf(e)
    ensures Select(e, k) == []
  {
    if e != [] {
      var init := e[..|e| - 1];
      assert KeysOf(init) <= KeysOf(e) by {
        forall x | x in KeysOf(init) ensures x in KeysOf(e) {
          var j :| 0 <= j < |init| && init[j].0 == x;
          assert e[j] == init[j];
        }
      }
      SelectAbsent(init, k);
      assert e[|e| - 1].0 in KeysOf(e);
    }
  }

  lemma StepPush<L>(e: seq<(int, L)>, k: int, x: L)
    ensures GroupMap(e + [(k, x)]) ==
      GroupMap(e)[k := (if k in GroupMap(e) then GroupMap(e)[k] else []) + [x]]
    ensures KeyOrder(e + [(k, x)]) == if k in GroupMap(e) then KeyOrder(e) else KeyOrder(e) + [k]
  {
    assert (e + [(k, x)])[..|e|] == e;
    KeyOrderFacts(e);
    GroupMapSpec(e);
  }

  // ------------------------------------------------------------------
  // Object.keys

  /** An integer key that is an array index: `0 <= k < 2^32 - 1`. */
  predicate IsArrayIndex(k: int) {
    0 <= k < 0xFFFF_FFFF
  }

  predicate NotArrayIndex(k: int) {
    !IsArrayIndex(k)
  }

  /** `Object.keys(record)` for a record whose keys were created in the
      order `created`: array indices ascending, then the other keys in
      creation order. */
  function ObjectKeys(created: seq<int>): seq<int> {
    SortBy(Filter(created, IsArrayIndex), k => k) + Filter(created, NotArrayIndex)
  }

  /** `Object.keys` lists each created key exactly once, and no other key. */
  lemma ObjectKeysPermutation(created: seq<int>)
    requires Distinct(created)
    ensures multiset(ObjectKeys(created)) == multiset(created)
    ensures Distinct(ObjectKeys(created))
  {
    var idx := Filter(created, IsArrayIndex);
    var rest := Filter(created, NotArrayIndex);
    var sorted := SortBy(idx, k => k);
    ArrayIndexSplit(created);
    FilterDistinct(created, IsArrayIndex);
    FilterDistinct(created, NotArrayIndex);
    SortByStrict(idx, k => k);
    forall x | x in sorted ensures IsArrayIndex(x) {
      assert x in multiset(sorted);
      FilterMember(created, IsArrayIndex, x);
    }
    forall x | x in rest ensures !IsArrayIndex(x) {
      FilterMember(created, NotArrayIndex, x);
    }
    var r := sorted + rest;
    forall i, j | 0 <= i < j < |r| ensures r[i] != r[j] {
      if j < |sorted| {
        assert r[i] == sorted[i] && r[j] == sorted[j];
      } else if i >= |sorted| {
        assert r[i] == rest[i - |sorted|] && r[j] == rest[j - |sorted|];
      } else {
        assert r[i] in sorted && r[j] in rest;
      }
    }
  }

  /** When every key is an array index, `Object.keys` lists them in
      strictly ascending order. */
  lemma ObjectKeysAscending(created: seq<int>)
    requires Distinct(created)
    requires forall k :: k in created ==> IsArrayIndex(k)
    ensures forall i, j :: 0 <= i < j < |ObjectKeys(created)| ==>
      ObjectKeys(created)[i] < ObjectKeys(created)[j]
  {
    var idx := Filter(created, IsArrayIndex);
    FilterAll(created, IsArrayIndex);
    FilterNone(created, NotArrayIndex);
    assert KeysDistinct(idx, k => k);
    SortByStrict(idx, k => k);
    assert ObjectKeys(created) == SortBy(idx, k => k);
  }

  /** Splitting keys into array indices and the rest loses and adds none. */
  lemma {:induction false} ArrayIndexSplit(s: seq<int>)
    ensures multiset(Filter(s, IsArrayIndex)) + multiset(Filter(s, NotArrayIndex)) == multiset(s)
  {
    if s != [] {
      var t := s[1..];
      ArrayIndexSplit(t);
      assert s == [s[0]] + t;
      var head := multiset{s[0]};
      var idx, rest := Filter(t, IsArrayIndex), Filter(t, NotArrayIndex);
      if IsArrayIndex(s[0]) {
        assert Filter(s, IsArrayIndex) == [s[0]] + idx;
        assert Filter(s, NotArrayIndex) == [] + rest;
        assert multiset(Filter(s, IsArrayIndex)) == head + multiset(idx);
        assert multiset(Filter(s, NotArrayIndex)) == multiset(rest);
      } else {
        assert Filter(s, NotArrayIndex) == [s[0]] + rest;
        assert Filter(s, IsArrayIndex) == [] + idx;
        assert multiset(Filter(s, NotArrayIndex)) == head + multiset(rest);
        assert multiset(Filter(s, IsArrayIndex)) == multiset(idx);
      }
      assert multiset(s) == head + multiset(t);
    }
  }

  lemma {:induction false} FilterDistinct<T>(s: seq<T>, p: T -> bool)
    requires Distinct(s)
    ensures Distinct(Filter(s, p))
  {
    if s != [] {
      FilterDistinct(s[1..], p);
      var f := Filter(s[1..], p);
      if p(s[0]) {
        var r := [s[0]] + f;
        forall i, j | 0 <= i < j < |r| ensures r[i] != r[j] {
          if i == 0 {
            FilterMember(s[1..], p, r[j]);
            assert r[j] == f[j - 1];
          } else {
            assert r[i] == f[i - 1] && r[j] == f[j - 1];
          }
        }
      }
    }
  }
}
