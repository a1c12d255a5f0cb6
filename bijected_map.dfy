/**
 * `BijectedHashMap`: a `HashMap` (the forward direction) paired with a
 * second `HashMap` from values back to keys. Both are modelled as Dafny
 * maps over nullable keys; `HashMap`'s own answers (`put` and `remove`
 * return the previous value or null) are `Previous`.
 */
module BijectedHashMap {
  import opened Wrappers
  import opened BidirectionalMap

  /** What `HashMap.get`, `put` and `remove` answer: the value held for `k`, null when absent. */
  function Previous<A(==), B>(m: map<Option<A>, Option<B>>, k: Option<A>): (r: Option<B>)
    ensures k in m ==> r == m[k]
    ensures k !in m ==> r.None?
  {
    if k in m then m[k] else None
  }

  /**
   * `put` as written: the reverse map takes `value -> key`, and the value is
   * stored in the forward map under the key the reverse map held for it
   * before (null when the value is new), not under `key`.
   */
  function PutAsWritten<K, V>(m: View<K, V>, key: Option<K>, value: Option<V>): (r: (View<K, V>, Option<V>))
    ensures r.0.backward == m.backward[value := key]
    ensures r.0.forward == m.forward[Previous(m.backward, value) := value]
    ensures r.1 == Previous(m.forward, Previous(m.backward, value))
  {
    var previousKey := Previous(m.backward, value);
    (View(m.forward[previousKey := value], m.backward[value := key]), Previous(m.forward, previousKey))
  }

  /** `put` applied to each entry in turn, as `putAll` does. */
  function PutEach<K, V>(m: View<K, V>, entries: seq<(Option<K>, Option<V>)>): View<K, V>
  {
    if |entries| == 0 then m
    else
      var last := entries[|entries| - 1];
      PutAsWritten(PutEach(m, entries[..|entries| - 1]), last.0, last.1).0
  }
  /** One more entry is one more `put`. */
  lemma PutEachStep<K, V>(m: View<K, V>, entries: seq<(Option<K>, Option<V>)>, i: nat)
    requires i < |entries|
    ensures PutEach(m, entries[..i + 1]) == PutAsWritten(PutEach(m, entries[..i]), entries[i].0, entries[i].1).0
  {
    assert entries[..i + 1][..i] == entries[..i];
  }


  /** `remove` as written: the reverse entry keyed by the answer goes, even when the answer is null because the key was absent. */
  function RemoveAsWritten<K, V>(m: View<K, V>, key: Option<K>): (r: (View<K, V>, Option<V>))
    ensures r.0.forward == m.forward - {key}
    ensures r.0.backward == m.backward - {Previous(m.forward, key)}
    ensures r.1 == Previous(m.forward, key)
  {
    var value := Previous(m.forward, key);
    (View(m.forward - {key}, m.backward - {value}), value)
  }

  /** Removing a key only drops its own reverse entry: the correction of `RemoveAsWritten`. */
  function RemoveKey<K, V>(m: View<K, V>, key: Option<K>): (r: (View<K, V>, Option<V>))
    ensures key !in m.forward ==> r.0 == m && r.1.None?
    ensures key in m.forward ==> r.0 == View(m.forward - {key}, m.backward - {m.forward[key]}) && r.1 == m.forward[key]
  {
    if key in m.forward then RemoveAsWritten(m, key) else (m, None)
  }

  /** Removing a key keeps a bidirectional map bidirectional. */
  lemma RemoveKeyKeepsBijection<K, V>(m: View<K, V>, key: Option<K>)
    requires m.Bijective()
    ensures RemoveKey(m, key).0.Bijective()
    ensures RemoveKey(m, key).0.forward.Keys == m.forward.Keys - {key}
  {
    if key in m.forward {
      var r := RemoveKey(m, key).0;
      forall k | k in r.forward
        ensures r.forward[k] in r.backward && r.backward[r.forward[k]] == k
      {
        assert m.backward[m.forward[k]] == k && m.backward[m.forward[key]] == key;
      }
    }
  }

  /** `put(1, 2)` on an empty map leaves key 1 unmapped and maps null to 2 instead. */
  lemma PutAsWrittenMisplacesValue()
    ensures var r := PutAsWritten(View<int, int>.View(map[], map[]), Some(1), Some(2));
      r.0.forward == map[None := Some(2)] && Some(1) !in r.0.forward
      && r.0.backward == map[Some(2) := Some(1)] && !r.0.Bijective()
  {
    var empty: View<int, int> := View(map[], map[]);
    var r := PutAsWritten(empty, Some(1), Some(2));
    assert r.0.backward[Some(2)] == Some(1) && Some(1) !in r.0.forward;
  }

  /** Removing an absent key from `{1: null}` drops the reverse entry of the null value. */
  lemma RemoveAsWrittenDropsNullValue()
    ensures var m: View<int, int> := View(map[Some(1) := None], map[None := Some(1)]);
      m.Bijective() && !RemoveAsWritten(m, Some(2)).0.Bijective()
  {
    var m: View<int, int> := View(map[Some(1) := None], map[None := Some(1)]);
    var r := RemoveAsWritten(m, Some(2)).0;
    assert Some(1) in r.forward && r.forward[Some(1)] !in r.backward;
  }

  class BijectedHashMap<K(==), V(==)> {
    var forward: map<Option<K>, Option<V>>
    var reverse: map<Option<V>, Option<K>>

    function Contents(): View<K, V>
      reads this
    {
      View(forward, reverse)
    }

    /** Every constructor starts with both maps empty (capacity and load factor are not modelled). */
    constructor ()
      ensures forward == map[] && reverse == map[]
      ensures Contents().Bijective()
    {
      forward := map[];
      reverse := map[];
    }

    /** The copy constructor: an empty map followed by `putAll(m)`. */
    constructor Copy(m: Option<seq<(Option<K>, Option<V>)>>)
      ensures m.None? ==> forward == map[] && reverse == map[]
      ensures m.Some? ==> Contents() == PutEach(View(map[], map[]), m.value)
    {
      forward := map[];
      reverse := map[];
      new;
      PutAll(m);
    }

    /** `put`, as written. */
    method Put(key: Option<K>, value: Option<V>) returns (r: Option<V>)
      modifies this
      ensures (Contents(), r) == PutAsWritten(old(Contents()), key, value)
    {
      var previousKey := Previous(reverse, value);
      reverse := reverse[value := key];
      r := Previous(forward, previousKey);
      forward := forward[previousKey := value];
    }

    /**
     * The evident intent of `put`: `key` holds `value` afterwards, and the
     * entries that held either before are dropped. Answers the key's
     * previous value.
     */
    method BijectivePut(key: Option<K>, value: Option<V>) returns (r: Option<V>)
      modifies this
      ensures Contents() == ForcePut(old(Contents()), key, value)
      ensures r == Previous(old(forward), key)
      ensures old(Contents()).Bijective() ==> Contents().Bijective() && forward[key] == value
    {
      r := Previous(forward, key);
      var staleValue := if key in forward then {forward[key]} else {};
      var staleKey := if value in reverse then {reverse[value]} else {};
      forward := (forward - staleKey)[key := value];
      reverse := (reverse - staleValue)[value := key];
      if old(Contents()).Bijective() {
        ForcePutIsBijective(old(Contents()), key, value);
      }
    }

    /** `remove`, as written. */
    method Remove(key: Option<K>) returns (r: Option<V>)
      modifies this
      ensures (Contents(), r) == RemoveAsWritten(old(Contents()), key)
    {
      r := Previous(forward, key);
      forward := forward - {key};
      reverse := reverse - {r};
    }

    /** `remove` corrected: the reverse map is touched only when the key was present. */
    method RemoveMapping(key: Option<K>) returns (r: Option<V>)
      modifies this
      ensures (Contents(), r) == RemoveKey(old(Contents()), key)
      ensures old(Contents()).Bijective() ==> Contents().Bijective() && key !in forward
    {
      if key in forward {
        r := Remove(key);
      } else {
        r := None;
      }
      if old(Contents()).Bijective() {
        RemoveKeyKeepsBijection(old(Contents()), key);
      }
    }

    /** `putAll`: nothing for a null or empty argument, otherwise `put` for each entry in order. */
    method PutAll(m: Option<seq<(Option<K>, Option<V>)>>)
      modifies this
      ensures m.None? ==> Contents() == old(Contents())
      ensures m.Some? ==> Contents() == PutEach(old(Contents()), m.value)
    {
      if m.None? || |m.value| == 0 {
        return;
      }
      var entries := m.value;
      var i := 0;
      while i < |entries|
        invariant 0 <= i <= |entries|
        invariant Contents() == PutEach(old(Contents()), entries[..i])
      {
        PutEachStep(old(Contents()), entries, i);
        var _ := Put(entries[i].0, entries[i].1);
        i := i + 1;
      }
      assert entries[..i] == entries;
    }

    method Clear()
      modifies this
      ensures forward == map[] && reverse == map[]
    {
      reverse := map[];
      forward := map[];
    }

    /** `values()`: the reverse map's key set. */
    function Values(): (r: set<Option<V>>)
      reads this
      ensures r == reverse.Keys
    {
      reverse.Keys
    }

    /** `removeValue`: looks the value's key up in the reverse map and removes that key. */
    method RemoveValue(value: Option<V>) returns (r: Option<K>)
      modifies this
      ensures r == Previous(old(reverse), value)
      ensures Contents() == RemoveAsWritten(old(Contents()), r).0
      ensures old(Contents()).Bijective() && value in old(reverse) ==>
        Contents() == RemoveKey(old(Contents()), r).0 && Contents().Bijective() && value !in reverse
    {
      r := Previous(reverse, value);
      var _ := Remove(r);
      if old(Contents()).Bijective() && value in old(reverse) {
        RemoveKeyKeepsBijection(old(Contents()), r);
      }
    }
  }
}
