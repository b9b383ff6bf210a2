/** Python dictionaries as the converter uses them: a mapping from keys to
    values that also remembers the order in which keys were first inserted
    (the iteration order of an `OrderedDict`). Assigning to a key already
    present keeps its position; assigning to a new key appends it. */
module OrderedMaps {

  datatype OMap<K(==,!new), V> = OMap(keys: seq<K>, vals: map<K, V>)
  {
    /** The keys listed in iteration order are exactly the keys of the
        mapping, each once. */
    ghost predicate Valid()
    {
      && (forall i, j :: 0 <= i < j < |keys| ==> keys[i] != keys[j])
      && (forall i :: 0 <= i < |keys| ==> keys[i] in vals)
      && (forall k :: k in vals ==> k in keys)
    }
  }

  function Empty<K(==,!new), V>(): (m: OMap<K, V>)
    ensures m.Valid() && m.keys == [] && m.vals == map[]
  {
    OMap([], map[])
  }

  /** `d[k] = v`. */
  function Put<K(==,!new), V>(m: OMap<K, V>, k: K, v: V): (r: OMap<K, V>)
    ensures m.Valid() ==> r.Valid()
    ensures r.vals == m.vals[k := v]
    ensures r.keys == if k in m.vals then m.keys else m.keys + [k]
  {
    if k in m.vals then OMap(m.keys, m.vals[k := v])
    else OMap(m.keys + [k], m.vals[k := v])
  }

  /** `d.get(k, default)`. */
  function Get<K(==,!new), V>(m: OMap<K, V>, k: K, default: V): V
  {
    if k in m.vals then m.vals[k] else default
  }

  // ---------------------------------------------------------------------
  // Dense position indices (the `ec_idx` dictionaries)

  /** `idx` gives every key of `keys` its position in `keys`, and knows no
      other key. */
  ghost predicate IndexesKeys<K(!new)>(idx: map<K, int>, keys: seq<K>)
  {
    && (forall k :: k in idx <==> k in keys)
    && (forall i :: 0 <= i < |keys| ==> idx[keys[i]] == i)
  }

  /** An index that gives each key its position is dense: its values are
      exactly 0 .. n-1. */
  lemma IndexesKeysDense<K(!new)>(idx: map<K, int>, keys: seq<K>)
    requires IndexesKeys(idx, keys)
    ensures forall n :: n in idx.Values <==> 0 <= n < |keys|
  {
    forall n ensures n in idx.Values <==> 0 <= n < |keys| {
      if 0 <= n < |keys| {
        assert idx[keys[n]] == n;
      }
      if n in idx.Values {
        var k :| k in idx && idx[k] == n;
        var i :| 0 <= i < |keys| && keys[i] == k;
        assert idx[keys[i]] == i;
      }
    }
  }

  /** Appending a new key at index `len(ec_idx)` keeps the index dense. */
  lemma IndexesKeysAppend<K(!new)>(idx: map<K, int>, keys: seq<K>, k: K)
    requires IndexesKeys(idx, keys)
    requires k !in keys
    ensures IndexesKeys(idx[k := |keys|], keys + [k])
  {
  }

  /** `len(ec_idx)` is the number of keys it indexes, so the next key
      appended gets position `len(ec_idx)`. */
  lemma {:induction false} IndexesKeysSize<K(!new)>(idx: map<K, int>, keys: seq<K>)
    requires IndexesKeys(idx, keys)
    ensures |idx| == |keys|
    decreases |keys|
  {
    if |keys| > 0 {
      var n := |keys| - 1;
      var last := keys[n];
      var init := keys[..n];
      assert last !in init by {
        forall i | 0 <= i < n ensures init[i] != last {
          assert idx[keys[i]] == i && idx[last] == n;
        }
      }
      var rest := idx - {last};
      assert IndexesKeys(rest, init) by {
        forall k ensures k in rest <==> k in init {
          if k in idx && k != last {
            var i :| 0 <= i < |keys| && keys[i] == k;
            assert i != n;
            assert init[i] == k;
          }
        }
      }
      IndexesKeysSize(rest, init);
      assert idx.Keys == rest.Keys + {last};
    } else {
      assert idx.Keys == {};
    }
  }

  // ---------------------------------------------------------------------
  // Sums of integer values

  /** The sum of `vals[k]` over the listed keys. */
  function SumOf<K(==,!new)>(keys: seq<K>, vals: map<K, int>): int
    requires forall k :: k in keys ==> k in vals
  {
    if |keys| == 0 then 0
    else SumOf(keys[..|keys| - 1], vals) + vals[keys[|keys| - 1]]
  }

  /** `sum(d.values())`. */
  function Total<K(==,!new)>(m: OMap<K, int>): int
    requires m.Valid()
  {
    SumOf(m.keys, m.vals)
  }

  /** Listing one more key adds its value. */
  lemma SumOfSnoc<K(!new)>(keys: seq<K>, k: K, vals: map<K, int>)
    requires forall k' :: k' in keys ==> k' in vals
    requires k in vals
    ensures SumOf(keys + [k], vals) == SumOf(keys, vals) + vals[k]
  {
    assert (keys + [k])[..|keys|] == keys;
  }

  /** A sum only reads the values of the keys it lists. */
  lemma {:induction false} SumOfFrame<K(!new)>(keys: seq<K>, a: map<K, int>, b: map<K, int>)
    requires forall k :: k in keys ==> k in a && k in b && a[k] == b[k]
    ensures SumOf(keys, a) == SumOf(keys, b)
    decreases |keys|
  {
    if |keys| > 0 {
      SumOfFrame(keys[..|keys| - 1], a, b);
    }
  }

  /** Changing the value of one listed key changes the sum by the difference. */
  lemma {:induction false} SumOfUpdate<K(!new)>(keys: seq<K>, vals: map<K, int>, k: K, v: int)
    requires forall i, j :: 0 <= i < j < |keys| ==> keys[i] != keys[j]
    requires forall k' :: k' in keys ==> k' in vals
    requires k in keys
    ensures SumOf(keys, vals[k := v]) == SumOf(keys, vals) - vals[k] + v
    decreases |keys|
  {
    var n := |keys|;
    var init := keys[..n - 1];
    if keys[n - 1] == k {
      assert k !in init;
      SumOfFrame(init, vals[k := v], vals);
    } else {
      assert k in init;
      SumOfUpdate(init, vals, k, v);
    }
  }

  /** Incrementing one value by `delta`, creating it when absent
      (`d[k] += delta` on a counter). */
  function Bump<K(==,!new)>(m: OMap<K, int>, k: K, delta: int): (r: OMap<K, int>)
    ensures m.Valid() ==> r.Valid()
  {
    Put(m, k, Get(m, k, 0) + delta)
  }

  /** A bump adds the bumped key and no other. */
  lemma BumpHas<K(!new)>(m: OMap<K, int>, k: K, delta: int, x: K)
    ensures x in Bump(m, k, delta).vals <==> x in m.vals || x == k
  {
  }

  /** A bump is the assignment of the bumped value. */
  lemma BumpIsPut<K(!new)>(m: OMap<K, int>, k: K, delta: int, v: int)
    requires Get(m, k, 0) + delta == v
    ensures Bump(m, k, delta) == Put(m, k, v)
  {
  }

  /** Bumping one key adds `delta` to its count and to no other. */
  lemma BumpGet<K(!new)>(m: OMap<K, int>, k: K, delta: int, k': K)
    ensures Get(Bump(m, k, delta), k', 0) == Get(m, k', 0) + if k' == k then delta else 0
  {
  }

  /** Bumping a counter adds exactly `delta` to its total and to the count
      of the bumped key, and leaves every other count alone. */
  lemma BumpTotal<K(!new)>(m: OMap<K, int>, k: K, delta: int)
    requires m.Valid()
    ensures Total(Bump(m, k, delta)) == Total(m) + delta
    ensures Get(Bump(m, k, delta), k, 0) == Get(m, k, 0) + delta
    ensures forall k' :: k' != k ==> Get(Bump(m, k, delta), k', 0) == Get(m, k', 0)
  {
    BumpSum(m, k, delta);
    forall k' ensures Get(Bump(m, k, delta), k', 0) == Get(m, k', 0) + if k' == k then delta else 0 {
      BumpGet(m, k, delta, k');
    }
  }

  /** The total alone, for proofs that need nothing else. */
  lemma BumpSum<K(!new)>(m: OMap<K, int>, k: K, delta: int)
    requires m.Valid()
    ensures Total(Bump(m, k, delta)) == Total(m) + delta
  {
    if k in m.vals {
      BumpSumPresent(m, k, delta);
    } else {
      BumpSumAbsent(m, k, delta);
    }
  }

  lemma BumpSumPresent<K(!new)>(m: OMap<K, int>, k: K, delta: int)
    requires m.Valid() && k in m.vals
    ensures Total(Bump(m, k, delta)) == Total(m) + delta
  {
    var v := m.vals[k] + delta;
    assert Bump(m, k, delta) == OMap(m.keys, m.vals[k := v]);
    SumOfUpdate(m.keys, m.vals, k, v);
  }

  lemma BumpSumAbsent<K(!new)>(m: OMap<K, int>, k: K, delta: int)
    requires m.Valid() && k !in m.vals
    ensures Total(Bump(m, k, delta)) == Total(m) + delta
  {
    var r := Bump(m, k, delta);
    assert r.keys == m.keys + [k] && r.vals == m.vals[k := delta];
    SumOfSnoc(m.keys, k, r.vals);
    SumOfFrame(m.keys, r.vals, m.vals);
  }

  /** `ec[k] += delta`, giving a new key the next position
      `len(ec_idx)` in the index. */
  function BumpIndexed<K(==,!new)>(m: OMap<K, int>, idx: map<K, int>, k: K, delta: int)
    : (r: (OMap<K, int>, map<K, int>))
    ensures r.0 == Bump(m, k, delta)
    ensures m.Valid() && IndexesKeys(idx, m.keys) ==> r.0.Valid() && IndexesKeys(r.1, r.0.keys)
  {
    assert m.Valid() && IndexesKeys(idx, m.keys) && k !in m.vals ==>
           IndexesKeys(idx[k := |idx|], m.keys + [k]) by {
      if m.Valid() && IndexesKeys(idx, m.keys) && k !in m.vals {
        IndexesKeysSize(idx, m.keys);
        IndexesKeysAppend(idx, m.keys, k);
      }
    }
    (Bump(m, k, delta), if k in m.vals then idx else idx[k := |idx|])
  }

  /** Adds to `m` the counts of the first `n` keys of `other`, in
      `other`'s order. */
  function AddFirst<K(==,!new)>(m: OMap<K, int>, other: OMap<K, int>, n: nat): OMap<K, int>
    requires n <= |other.keys|
  {
    if n == 0 then m
    else Bump(AddFirst(m, other, n - 1), other.keys[n - 1], Get(other, other.keys[n - 1], 0))
  }

  /** Adding counts keeps a map valid. */
  lemma {:induction false} AddFirstValid<K(!new)>(m: OMap<K, int>, other: OMap<K, int>, n: nat)
    requires m.Valid() && n <= |other.keys|
    ensures AddFirst(m, other, n).Valid()
  {
    if n > 0 {
      var prev := AddFirst(m, other, n - 1);
      var key := other.keys[n - 1];
      AddFirstValid(m, other, n - 1);
      assert AddFirst(m, other, n) == Bump(prev, key, Get(other, key, 0));
    }
  }

  /** `AddFirst` that also keeps a position index of the keys. */
  function AddFirstIndexed<K(==,!new)>(m: OMap<K, int>, idx: map<K, int>, other: OMap<K, int>, n: nat)
    : (r: (OMap<K, int>, map<K, int>))
    requires n <= |other.keys|
    ensures r.0 == AddFirst(m, other, n)
    ensures m.Valid() && IndexesKeys(idx, m.keys) ==> r.0.Valid() && IndexesKeys(r.1, r.0.keys)
  {
    if n == 0 then (m, idx)
    else
      var prev := AddFirstIndexed(m, idx, other, n - 1);
      BumpIndexed(prev.0, prev.1, other.keys[n - 1], Get(other, other.keys[n - 1], 0))
  }

  /** One more key of `other` is one more bump by its count. */
  lemma AddFirstIndexedNext<K(!new)>(m: OMap<K, int>, idx: map<K, int>, other: OMap<K, int>, i: nat)
    requires i < |other.keys|
    ensures var prev := AddFirstIndexed(m, idx, other, i);
      AddFirstIndexed(m, idx, other, i + 1) == BumpIndexed(prev.0, prev.1, other.keys[i], Get(other, other.keys[i], 0))
  {
  }

  /** `for k, v in other.iteritems(): m[k] += v` on counters. */
  function AddCounts<K(==,!new)>(m: OMap<K, int>, other: OMap<K, int>): OMap<K, int>
  {
    AddFirst(m, other, |other.keys|)
  }

  /** Each counter gains the count of its key among the first `n` keys
      of `other`. */
  lemma {:induction false} AddFirstGet<K(!new)>(m: OMap<K, int>, other: OMap<K, int>, n: nat, k: K)
    requires other.Valid() && n <= |other.keys|
    ensures Get(AddFirst(m, other, n), k, 0) == Get(m, k, 0) + (if k in other.keys[..n] then other.vals[k] else 0)
  {
    if n > 0 {
      var key := other.keys[n - 1];
      AddFirstGet(m, other, n - 1, k);
      BumpGet(AddFirst(m, other, n - 1), key, Get(other, key, 0), k);
      PrefixSnoc(other, n, k);
    }
  }

  /** A key is among the first `n` keys when it is among the first `n - 1`
      or is the `n`-th, and not both. */
  lemma PrefixSnoc<K(!new), V>(m: OMap<K, V>, n: nat, k: K)
    requires m.Valid() && 0 < n <= |m.keys|
    ensures k in m.keys[..n] <==> k in m.keys[..n - 1] || k == m.keys[n - 1]
    ensures k == m.keys[n - 1] ==> k !in m.keys[..n - 1]
  {
    assert m.keys[..n] == m.keys[..n - 1] + [m.keys[n - 1]];
    if k == m.keys[n - 1] {
      forall i | 0 <= i < n - 1 ensures m.keys[i] != k {
        assert m.keys[i] != m.keys[n - 1];
      }
    }
  }

  /** Merging counters adds the counts key by key. */
  lemma AddCountsGet<K(!new)>(m: OMap<K, int>, other: OMap<K, int>, k: K)
    requires other.Valid()
    ensures Get(AddCounts(m, other), k, 0) == Get(m, k, 0) + Get(other, k, 0)
  {
    AddFirstGet(m, other, |other.keys|, k);
    assert other.keys[..|other.keys|] == other.keys;
  }

  /** The total grows by the sum of the added counts. */
  lemma {:induction false} AddFirstTotal<K(!new)>(m: OMap<K, int>, other: OMap<K, int>, n: nat)
    requires m.Valid() && other.Valid() && n <= |other.keys|
    ensures AddFirst(m, other, n).Valid()
    ensures Total(AddFirst(m, other, n)) == Total(m) + SumOf(other.keys[..n], other.vals)
  {
    AddFirstValid(m, other, n);
    if n > 0 {
      var prev := AddFirst(m, other, n - 1);
      var key := other.keys[n - 1];
      AddFirstTotal(m, other, n - 1);
      BumpSum(prev, key, Get(other, key, 0));
      FrontOfFront(other.keys, n);
      assert SumOf(other.keys[..n], other.vals) == SumOf(other.keys[..n - 1], other.vals) + other.vals[key];
    }
  }

  /** Merging counters adds the totals. */
  lemma AddCountsTotal<K(!new)>(m: OMap<K, int>, other: OMap<K, int>)
    requires m.Valid() && other.Valid()
    ensures AddCounts(m, other).Valid()
    ensures Total(AddCounts(m, other)) == Total(m) + Total(other)
  {
    AddFirstTotal(m, other, |other.keys|);
    assert other.keys[..|other.keys|] == other.keys;
  }

  /** The old keys keep their positions. */
  lemma {:induction false} AddFirstPrefix<K(!new)>(m: OMap<K, int>, other: OMap<K, int>, n: nat)
    requires n <= |other.keys|
    ensures |AddFirst(m, other, n).keys| >= |m.keys|
    ensures AddFirst(m, other, n).keys[..|m.keys|] == m.keys
  {
    if n > 0 {
      var prev := AddFirst(m, other, n - 1);
      AddFirstPrefix(m, other, n - 1);
      var key := other.keys[n - 1];
      BumpKeepsPrefix(prev, key, Get(other, key, 0), |m.keys|);
    }
  }

  /** A bump keeps every key in place. */
  lemma BumpKeepsPrefix<K(!new)>(m: OMap<K, int>, k: K, delta: int, n: nat)
    requires n <= |m.keys|
    ensures |Bump(m, k, delta).keys| >= |m.keys| && Bump(m, k, delta).keys[..n] == m.keys[..n]
  {
    if k !in m.vals {
      assert Bump(m, k, delta).keys == m.keys + [k];
      assert (m.keys + [k])[..n] == m.keys[..n];
    }
  }

  /** A key is present afterwards exactly when it was before or is among
      the added ones. */
  lemma {:induction false} AddFirstHas<K(!new)>(m: OMap<K, int>, other: OMap<K, int>, n: nat, k: K)
    requires n <= |other.keys|
    ensures k in AddFirst(m, other, n).vals <==> k in m.vals || k in other.keys[..n]
  {
    if n > 0 {
      var prev := AddFirst(m, other, n - 1);
      var key := other.keys[n - 1];
      AddFirstHas(m, other, n - 1, k);
      assert AddFirst(m, other, n) == Bump(prev, key, Get(other, key, 0));
      BumpHas(prev, key, Get(other, key, 0), k);
      InFrontSnoc(other.keys, n, k);
    }
  }

  /** Dropping the last of the first `n` elements leaves the first `n - 1`. */
  lemma FrontOfFront<T>(s: seq<T>, n: nat)
    requires 0 < n <= |s|
    ensures s[..n][..n - 1] == s[..n - 1] && s[..n][n - 1] == s[n - 1]
  {
  }

  /** A value is among the first `n` elements exactly when it is among
      the first `n - 1` or is the `n`-th. */
  lemma InFrontSnoc<T>(s: seq<T>, n: nat, x: T)
    requires 0 < n <= |s|
    ensures x in s[..n] <==> x in s[..n - 1] || x == s[n - 1]
  {
    assert s[..n] == s[..n - 1] + [s[n - 1]];
  }

  /** The old keys keep their positions; a key is present afterwards
      exactly when it was before or is among the added ones. */
  lemma AddFirstKeys<K(!new)>(m: OMap<K, int>, other: OMap<K, int>, n: nat)
    requires n <= |other.keys|
    ensures |AddFirst(m, other, n).keys| >= |m.keys|
    ensures AddFirst(m, other, n).keys[..|m.keys|] == m.keys
    ensures forall k :: k in AddFirst(m, other, n).vals <==> k in m.vals || k in other.keys[..n]
  {
    AddFirstPrefix(m, other, n);
    forall k ensures k in AddFirst(m, other, n).vals <==> k in m.vals || k in other.keys[..n] {
      AddFirstHas(m, other, n, k);
    }
  }

  /** Merging counters keeps the old keys in place and adds the others'. */
  lemma AddCountsKeys<K(!new)>(m: OMap<K, int>, other: OMap<K, int>)
    requires other.Valid()
    ensures |AddCounts(m, other).keys| >= |m.keys|
    ensures AddCounts(m, other).keys[..|m.keys|] == m.keys
    ensures forall k :: k in AddCounts(m, other).vals <==> k in m.vals || k in other.vals
  {
    AddFirstKeys(m, other, |other.keys|);
    assert other.keys[..|other.keys|] == other.keys;
  }

  // ---------------------------------------------------------------------
  // dict.update

  /** The keys of `ks` that `seen` does not hold, in order. */
  function NewKeys<K(==,!new), V>(ks: seq<K>, seen: map<K, V>): seq<K>
  {
    if |ks| == 0 then []
    else if ks[0] in seen then NewKeys(ks[1..], seen)
    else [ks[0]] + NewKeys(ks[1..], seen)
  }

  /** Assigns `vals[k]` for every key of `ks`, in order. */
  function PutAll<K(==,!new), V>(x: OMap<K, V>, ks: seq<K>, vals: map<K, V>): OMap<K, V>
    requires forall k :: k in ks ==> k in vals
    decreases |ks|
  {
    if |ks| == 0 then x else PutAll(Put(x, ks[0], vals[ks[0]]), ks[1..], vals)
  }

  /** `x.update(y)` on a copy of `x`. */
  function Update<K(==,!new), V>(x: OMap<K, V>, y: OMap<K, V>): OMap<K, V>
    requires y.Valid()
  {
    PutAll(x, y.keys, y.vals)
  }

  lemma {:induction false} NewKeysSkip<K(!new), V>(ks: seq<K>, seen: map<K, V>, k: K, v: V)
    requires k !in ks
    ensures NewKeys(ks, seen[k := v]) == NewKeys(ks, seen)
    decreases |ks|
  {
    if |ks| > 0 {
      NewKeysSkip(ks[1..], seen, k, v);
    }
  }

  lemma {:induction false} NewKeysIn<K(!new), V>(ks: seq<K>, seen: map<K, V>)
    ensures forall k :: k in NewKeys(ks, seen) <==> k in ks && k !in seen
    decreases |ks|
  {
    if |ks| > 0 {
      NewKeysIn(ks[1..], seen);
    }
  }

  /** The keys after a run of assignments: the old ones in their order,
      then the new ones in the order first assigned. */
  lemma {:induction false} PutAllKeys<K(!new), V>(x: OMap<K, V>, ks: seq<K>, vals: map<K, V>)
    requires x.Valid()
    requires forall k :: k in ks ==> k in vals
    requires forall i, j :: 0 <= i < j < |ks| ==> ks[i] != ks[j]
    ensures PutAll(x, ks, vals).Valid()
    ensures PutAll(x, ks, vals).keys == x.keys + NewKeys(ks, x.vals)
    decreases |ks|
  {
    if |ks| > 0 {
      var x' := Put(x, ks[0], vals[ks[0]]);
      assert forall i, j :: 0 <= i < j < |ks[1..]| ==> ks[1..][i] != ks[1..][j] by {
        forall i, j | 0 <= i < j < |ks[1..]| ensures ks[1..][i] != ks[1..][j] {
          assert ks[i + 1] != ks[j + 1];
        }
      }
      PutAllKeys(x', ks[1..], vals);
      PutFirstKeys(x, ks, vals);
    }
  }

  /** The step of `PutAllKeys`: the keys after the first assignment,
      followed by the keys the others add, are the old keys followed by
      all the new ones. */
  lemma PutFirstKeys<K(!new), V>(x: OMap<K, V>, ks: seq<K>, vals: map<K, V>)
    requires |ks| > 0 && ks[0] in vals
    requires forall i, j :: 0 <= i < j < |ks| ==> ks[i] != ks[j]
    ensures var x' := Put(x, ks[0], vals[ks[0]]);
      x'.keys + NewKeys(ks[1..], x'.vals) == x.keys + NewKeys(ks, x.vals)
  {
    assert ks[0] !in ks[1..] by {
      forall i | 1 <= i < |ks| ensures ks[i] != ks[0] {
        assert ks[0] != ks[i];
      }
    }
    NewKeysSkip(ks[1..], x.vals, ks[0], vals[ks[0]]);
    if ks[0] in x.vals {
      PutOldKeys(x, ks, vals);
    } else {
      PutNewKeys(x, ks, vals);
    }
  }

  lemma PutOldKeys<K(!new), V>(x: OMap<K, V>, ks: seq<K>, vals: map<K, V>)
    requires |ks| > 0 && ks[0] in vals && ks[0] in x.vals
    requires NewKeys(ks[1..], x.vals[ks[0] := vals[ks[0]]]) == NewKeys(ks[1..], x.vals)
    ensures var x' := Put(x, ks[0], vals[ks[0]]);
      x'.keys + NewKeys(ks[1..], x'.vals) == x.keys + NewKeys(ks, x.vals)
  {
    assert Put(x, ks[0], vals[ks[0]]) == OMap(x.keys, x.vals[ks[0] := vals[ks[0]]]);
    assert NewKeys(ks, x.vals) == NewKeys(ks[1..], x.vals);
  }

  lemma PutNewKeys<K(!new), V>(x: OMap<K, V>, ks: seq<K>, vals: map<K, V>)
    requires |ks| > 0 && ks[0] in vals && ks[0] !in x.vals
    requires NewKeys(ks[1..], x.vals[ks[0] := vals[ks[0]]]) == NewKeys(ks[1..], x.vals)
    ensures var x' := Put(x, ks[0], vals[ks[0]]);
      x'.keys + NewKeys(ks[1..], x'.vals) == x.keys + NewKeys(ks, x.vals)
  {
    var k := ks[0];
    var x' := Put(x, k, vals[k]);
    var rest := NewKeys(ks[1..], x.vals);
    assert x'.keys == x.keys + [k];
    assert NewKeys(ks[1..], x'.vals) == rest;
    assert NewKeys(ks, x.vals) == [k] + rest;
    AppendAssoc(x.keys, [k], rest);
  }

  /** In a valid map a key has a value exactly when it is listed. */
  lemma ValidHas<K(!new), V>(m: OMap<K, V>, k: K)
    requires m.Valid()
    ensures k in m.vals <==> k in m.keys
  {
  }

  /** Dropping the last element of `a + b` drops the last element of `b`. */
  lemma InitOfAppend<T>(a: seq<T>, b: seq<T>)
    requires |b| > 0
    ensures (a + b)[..|a + b| - 1] == a + b[..|b| - 1]
    ensures (a + b)[|a + b| - 1] == b[|b| - 1]
  {
    assert (a + b)[..|a + b| - 1] == a + b[..|b| - 1];
  }

  lemma AppendAssoc<T>(a: seq<T>, b: seq<T>, c: seq<T>)
    ensures a + b + c == a + (b + c)
  {
  }

  /** The values after a run of assignments: every assigned key holds its
      assigned value, every other key is untouched. */
  lemma PutAllVals<K(!new), V>(x: OMap<K, V>, ks: seq<K>, vals: map<K, V>)
    requires forall k :: k in ks ==> k in vals
    ensures PutAll(x, ks, vals).vals == x.vals + map k | k in ks :: vals[k]
  {
    var r := PutAll(x, ks, vals).vals;
    var all := x.vals + map k | k in ks :: vals[k];
    forall k ensures (k in r <==> k in all) && (k in r ==> r[k] == all[k]) {
      PutAllAt(x, ks, vals, k);
    }
  }

  /** One key after a run of assignments. */
  lemma {:induction false} PutAllAt<K(!new), V>(x: OMap<K, V>, ks: seq<K>, vals: map<K, V>, k: K)
    requires forall k :: k in ks ==> k in vals
    ensures k in PutAll(x, ks, vals).vals <==> k in x.vals || k in ks
    ensures k in ks ==> PutAll(x, ks, vals).vals[k] == vals[k]
    ensures k !in ks && k in x.vals ==> PutAll(x, ks, vals).vals[k] == x.vals[k]
    decreases |ks|
  {
    if |ks| > 0 {
      PutAllAt(Put(x, ks[0], vals[ks[0]]), ks[1..], vals, k);
      assert ks == [ks[0]] + ks[1..];
    }
  }

  /** `x.update(y)`: every key of `y` takes `y`'s value, every other key of
      `x` keeps its value; `x`'s keys keep their order and `y`'s new keys
      follow in `y`'s order. */
  lemma UpdateSpec<K(!new), V>(x: OMap<K, V>, y: OMap<K, V>)
    requires x.Valid() && y.Valid()
    ensures Update(x, y).Valid()
    ensures Update(x, y).vals == x.vals + y.vals
    ensures Update(x, y).keys == x.keys + NewKeys(y.keys, x.vals)
  {
    PutAllKeys(x, y.keys, y.vals);
    PutAllVals(x, y.keys, y.vals);
    KeysMap(y);
  }

  /** Reading every listed key of a valid map gives back the map. */
  lemma KeysMap<K(!new), V>(y: OMap<K, V>)
    requires y.Valid()
    ensures (map k | k in y.keys :: y.vals[k]) == y.vals
  {
  }
}
