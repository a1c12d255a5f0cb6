/**
 * `CollectionUtils`: null-element scans and enum-driven map builders. A Java
 * collection is its elements in iteration order; an enum class is its
 * constants in declaration order; a null argument is `None`.
 */
module CollectionUtils {
  import opened Wrappers

  /** `hasNullElements(collection)`: false for a null collection, else whether some element is null. */
  method HasNullElements<T>(collection: Option<seq<Option<T>>>) returns (r: bool)
    ensures r <==> collection.Some? && exists i :: 0 <= i < |collection.value| && collection.value[i].None?
  {
    if collection.None? {
      return false;
    }
    var items := collection.value;
    var i := 0;
    while i < |items|
      invariant 0 <= i <= |items|
      invariant forall j :: 0 <= j < i ==> items[j].Some?
    {
      if items[i].None? {
        return true;
      }
      i := i + 1;
    }
    return false;
  }

  /**
   * `hasNullElements(map)`: looks at the values only. The map is given as its
   * entries in iteration order.
   */
  method HasNullValues<K, V>(m: Option<seq<(K, Option<V>)>>) returns (r: bool)
    ensures r <==> m.Some? && exists i :: 0 <= i < |m.value| && m.value[i].1.None?
  {
    if m.None? {
      return false;
    }
    var entries := m.value;
    var i := 0;
    while i < |entries|
      invariant 0 <= i <= |entries|
      invariant forall j :: 0 <= j < i ==> entries[j].1.Some?
    {
      if entries[i].1.None? {
        return true;
      }
      i := i + 1;
    }
    return false;
  }

  /** `toArray(array)`: the varargs array itself, null included. */
  function ToArray<A>(arr: Option<seq<A>>): (r: Option<seq<A>>)
    ensures r.None? <==> arr.None?
    ensures r.Some? ==> |r.value| == |arr.value| && forall i :: 0 <= i < |r.value| ==> r.value[i] == arr.value[i]
  {
    arr
  }

  /**
   * `toMap(enumClass, iteratee)`: an `EnumMap` from every constant to
   * `iteratee(constant)`; null when an argument is null or the enum has no
   * constants.
   */
  method ToEnumMap<K(==), V>(constants: Option<seq<K>>, iteratee: Option<K -> V>) returns (r: Option<map<K, V>>)
    ensures r.Some? <==> constants.Some? && iteratee.Some? && |constants.value| > 0
    ensures r.Some? ==> (forall k :: k in r.value <==> k in constants.value)
    ensures r.Some? ==> forall k :: k in r.value ==> r.value[k] == iteratee.value(k)
  {
    if constants.None? || iteratee.None? {
      return None;
    }
    var cs, f := constants.value, iteratee.value;
    if |cs| == 0 {
      return None;
    }
    var m: map<K, V> := map[];
    var i := 0;
    while i < |cs|
      invariant 0 <= i <= |cs|
      invariant forall k :: k in m <==> k in cs[..i]
      invariant forall k :: k in m ==> m[k] == f(k)
    {
      m := m[cs[i] := f(cs[i])];
      i := i + 1;
    }
    assert cs[..i] == cs;
    return Some(m);
  }

  /** The keys of a `LinkedHashMap`, in insertion order. */
  function KeysOf<K, V>(entries: seq<(K, V)>): seq<K>
  {
    seq(|entries|, i requires 0 <= i < |entries| => entries[i].0)
  }

  predicate DistinctKeys<K(==), V>(entries: seq<(K, V)>)
  {
    forall i, j :: 0 <= i < j < |entries| ==> entries[i].0 != entries[j].0
  }

  /** Position of key `k` among the entries, or -1. */
  function FindKey<K(==), V>(entries: seq<(K, V)>, k: K): (i: int)
    ensures -1 <= i < |entries|
    ensures i >= 0 ==> entries[i].0 == k
    ensures i == -1 <==> k !in KeysOf(entries)
  {
    if |entries| == 0 then -1
    else if entries[|entries| - 1].0 == k then
      assert KeysOf(entries)[|entries| - 1] == k;
      |entries| - 1
    else
      var i := FindKey(entries[..|entries| - 1], k);
      assert KeysOf(entries) == KeysOf(entries[..|entries| - 1]) + [entries[|entries| - 1].0];
      i
  }

  /**
   * `LinkedHashMap.put`: a new key goes to the end; an existing key keeps its
   * place and takes the new value.
   */
  function LinkedPut<K(==), V>(entries: seq<(K, V)>, k: K, v: V): (r: seq<(K, V)>)
    requires DistinctKeys(entries)
    ensures DistinctKeys(r)
    ensures k in KeysOf(entries) ==> |r| == |entries|
    ensures k !in KeysOf(entries) ==> r == entries + [(k, v)]
    ensures forall i :: 0 <= i < |r| && r[i].0 == k ==> r[i].1 == v
    ensures forall i :: 0 <= i < |r| && i < |entries| && entries[i].0 != k ==> r[i] == entries[i]
    ensures KeysOf(r) == if k in KeysOf(entries) then KeysOf(entries) else KeysOf(entries) + [k]
  {
    var i := FindKey(entries, k);
    if i >= 0 then entries[i := (k, v)]
    else
      assert forall j :: 0 <= j < |entries| ==> KeysOf(entries)[j] == entries[j].0;
      entries + [(k, v)]
  }

  /**
   * After the constants `done` have been put, every entry holds the value of
   * the last constant with its key.
   */
  ghost predicate HoldsLastValues<E, K, V>(m: seq<(K, V)>, done: seq<E>, kf: E -> K, vf: E -> V)
  {
    forall i :: 0 <= i < |m| ==> LastPut(m[i], done, kf, vf)
  }

  /** Some constant of `done` carries the entry, and no later constant has its key. */
  ghost predicate LastPut<E, K, V>(entry: (K, V), done: seq<E>, kf: E -> K, vf: E -> V)
  {
    exists j :: 0 <= j < |done| && kf(done[j]) == entry.0 && entry.1 == vf(done[j])
      && forall j' :: j < j' < |done| ==> kf(done[j']) != entry.0
  }

  /** Putting a constant keeps every key put before and adds its own. */
  lemma PutKeepsKeys<E, K, V>(m: seq<(K, V)>, done: seq<E>, e: E, kf: E -> K, vf: E -> V)
    requires DistinctKeys(m) && forall d :: d in done ==> kf(d) in KeysOf(m)
    ensures forall d :: d in done + [e] ==> kf(d) in KeysOf(LinkedPut(m, kf(e), vf(e)))
  {
    var m' := LinkedPut(m, kf(e), vf(e));
    assert KeysOf(m') == if kf(e) in KeysOf(m) then KeysOf(m) else KeysOf(m) + [kf(e)];
  }

  lemma PutKeepsLastValues<E, K, V>(m: seq<(K, V)>, done: seq<E>, e: E, kf: E -> K, vf: E -> V)
    requires DistinctKeys(m) && HoldsLastValues(m, done, kf, vf)
    ensures HoldsLastValues(LinkedPut(m, kf(e), vf(e)), done + [e], kf, vf)
  {
    var k, v := kf(e), vf(e);
    var m', done' := LinkedPut(m, k, v), done + [e];
    forall i | 0 <= i < |m'|
      ensures LastPut(m'[i], done', kf, vf)
    {
      if m'[i].0 == k {
        assert kf(done'[|done|]) == m'[i].0 && m'[i].1 == vf(done'[|done|]);
      } else {
        assert |m'| == |m| || m' == m + [(k, v)];
        assert i < |m| && m'[i] == m[i];
        assert LastPut(m[i], done, kf, vf);
        var j :| 0 <= j < |done| && kf(done[j]) == m[i].0 && m[i].1 == vf(done[j])
          && forall j' :: j < j' < |done| ==> kf(done[j']) != m[i].0;
        assert kf(done'[j]) == m'[i].0 && m'[i].1 == vf(done'[j]);
        assert forall j' :: j < j' < |done'| ==> kf(done'[j']) != m'[i].0;
      }
    }
  }

  /**
   * What `toMap` keeps once the first `n` constants are put. The recursion
   * on `depth` only keeps the verifier from unfolding the quantifiers in the
   * loop that keeps it; `FilledIs` gives them back.
   */
  ghost predicate Filled<E, K, V>(m: seq<(K, V)>, cs: seq<E>, n: nat, kf: E -> K, vf: E -> V, depth: nat)
    requires n <= |cs|
  {
    if depth == 0 then
      DistinctKeys(m) && (forall d :: d in cs[..n] ==> kf(d) in KeysOf(m)) && HoldsLastValues(m, cs[..n], kf, vf)
    else Filled(m, cs, n, kf, vf, depth - 1)
  }

  lemma FilledIs<E, K, V>(m: seq<(K, V)>, cs: seq<E>, n: nat, kf: E -> K, vf: E -> V)
    requires n <= |cs|
    ensures Filled(m, cs, n, kf, vf, 1) <==>
      DistinctKeys(m) && (forall d :: d in cs[..n] ==> kf(d) in KeysOf(m)) && HoldsLastValues(m, cs[..n], kf, vf)
  {
    assert Filled(m, cs, n, kf, vf, 1) == Filled(m, cs, n, kf, vf, 0);
  }

  /** Putting the next constant keeps `Filled`. */
  lemma PutKeepsFilled<E, K, V>(m: seq<(K, V)>, cs: seq<E>, n: nat, kf: E -> K, vf: E -> V)
    requires n < |cs| && Filled(m, cs, n, kf, vf, 1)
    ensures DistinctKeys(m) && Filled(LinkedPut(m, kf(cs[n]), vf(cs[n])), cs, n + 1, kf, vf, 1)
  {
    FilledIs(m, cs, n, kf, vf);
    PutKeepsLastValues(m, cs[..n], cs[n], kf, vf);
    PutKeepsKeys(m, cs[..n], cs[n], kf, vf);
    assert cs[..n + 1] == cs[..n] + [cs[n]];
    FilledIs(LinkedPut(m, kf(cs[n]), vf(cs[n])), cs, n + 1, kf, vf);
  }

  /** The distinct keys of `cs`, each at the place of the first constant carrying it. */
  ghost function FirstKeys<E, K>(cs: seq<E>, kf: E -> K): seq<K>
  {
    if |cs| == 0 then []
    else
      var keys := FirstKeys(cs[..|cs| - 1], kf);
      if kf(cs[|cs| - 1]) in keys then keys else keys + [kf(cs[|cs| - 1])]
  }

  /** Putting the next constant appends its key only when it is new. */
  lemma PutKeepsFirstKeys<E, K, V>(m: seq<(K, V)>, cs: seq<E>, n: nat, kf: E -> K, vf: E -> V)
    requires n < |cs| && DistinctKeys(m) && KeysOf(m) == FirstKeys(cs[..n], kf)
    ensures KeysOf(LinkedPut(m, kf(cs[n]), vf(cs[n]))) == FirstKeys(cs[..n + 1], kf)
  {
    assert cs[..n + 1][..n] == cs[..n];
  }

  /**
   * `toMap(enumClass, keyIteratee, valueIteratee)`: a `LinkedHashMap` filled in
   * declaration order, so when two constants share a key the later one's value
   * wins while the key keeps the place of its first constant. Null on a null
   * argument or an enum without constants.
   */
  method ToLinkedMap<E(==), K(==), V>(constants: Option<seq<E>>, keyOf: Option<E -> K>, valueOf: Option<E -> V>)
    returns (r: Option<seq<(K, V)>>)
    ensures r.Some? <==> constants.Some? && keyOf.Some? && valueOf.Some? && |constants.value| > 0
    ensures r.Some? ==> DistinctKeys(r.value)
    ensures r.Some? ==> forall e :: e in constants.value ==> keyOf.value(e) in KeysOf(r.value)
    ensures r.Some? ==> HoldsLastValues(r.value, constants.value, keyOf.value, valueOf.value)
    ensures r.Some? ==> KeysOf(r.value) == FirstKeys(constants.value, keyOf.value)
  {
    if constants.None? || keyOf.None? || valueOf.None? {
      return None;
    }
    var cs, kf, vf := constants.value, keyOf.value, valueOf.value;
    if |cs| == 0 {
      return None;
    }
    var m := PutConstants(cs, kf, vf);
    return Some(m);
  }

  /** The loop of `toMap`: every constant's key and value put in declaration order. */
  method PutConstants<E(==), K(==), V>(cs: seq<E>, kf: E -> K, vf: E -> V) returns (m: seq<(K, V)>)
    ensures DistinctKeys(m)
    ensures forall e :: e in cs ==> kf(e) in KeysOf(m)
    ensures HoldsLastValues(m, cs, kf, vf)
    ensures KeysOf(m) == FirstKeys(cs, kf)
  {
    m := [];
    var n := 0;
    while n < |cs|
      invariant 0 <= n <= |cs|
      invariant Filled(m, cs, n, kf, vf, 1)
      invariant KeysOf(m) == FirstKeys(cs[..n], kf)
    {
      PutKeepsFilled(m, cs, n, kf, vf);
      PutKeepsFirstKeys(m, cs, n, kf, vf);
      m := LinkedPut(m, kf(cs[n]), vf(cs[n]));
      n := n + 1;
    }
    FilledIs(m, cs, n, kf, vf);
    assert cs[..n] == cs;
  }
}
