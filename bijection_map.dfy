/**
 * `BijectionHashMap` (deprecated): the same forward/mirror pair of
 * `HashMap`s as `BijectedHashMap`, whose `put` first tries to clear the
 * way for the new pair. Its `remove`, `putAll`, `clear`, `values` and
 * `removeValue` are those of `BijectedHashMap`.
 */
module BijectionHashMap {
  import opened Wrappers
  import opened BidirectionalMap
  import opened BijectedHashMap

  /**
   * `put` as written. When the key is present and the value already
   * mirrored, nothing changes and the answer is the value itself.
   * Otherwise a present key's old value leaves the mirror (a fresh key is
   * "removed" from the forward map, which changes nothing), and then the
   * pair is stored as `BijectedHashMap.put` does: under the mirror's
   * previous key for the value.
   */
  function MirrorPutAsWritten<K, V>(m: View<K, V>, key: Option<K>, value: Option<V>): (r: (View<K, V>, Option<V>))
    ensures key in m.forward && value in m.backward ==> r == (m, value)
    ensures key in m.forward && value !in m.backward ==>
      r.0 == View(m.forward[None := value], (m.backward - {m.forward[key]})[value := key])
      && r.1 == Previous(m.forward, None)
    ensures key !in m.forward && value in m.backward ==>
      r.0 == View(m.forward[m.backward[value] := value], m.backward[value := key])
      && r.1 == Previous(m.forward, m.backward[value])
    ensures key !in m.forward && value !in m.backward ==>
      r.0 == View(m.forward[None := value], m.backward[value := key]) && r.1 == Previous(m.forward, None)
  {
    if key in m.forward && value in m.backward then (m, value)
    else
      var cleared :=
        if key in m.forward then View(m.forward, m.backward - {m.forward[key]})
        else if value in m.backward then View(m.forward - {key}, m.backward)
        else m;
      PutAsWritten(cleared, key, value)
  }

  /** `put` for each entry in turn, as `putAll` does. */
  function MirrorPutEach<K, V>(m: View<K, V>, entries: seq<(Option<K>, Option<V>)>): View<K, V>
  {
    if |entries| == 0 then m
    else
      var last := entries[|entries| - 1];
      MirrorPutAsWritten(MirrorPutEach(m, entries[..|entries| - 1]), last.0, last.1).0
  }
  /** One more entry is one more `put`. */
  lemma MirrorPutEachStep<K, V>(m: View<K, V>, entries: seq<(Option<K>, Option<V>)>, i: nat)
    requires i < |entries|
    ensures MirrorPutEach(m, entries[..i + 1]) == MirrorPutAsWritten(MirrorPutEach(m, entries[..i]), entries[i].0, entries[i].1).0
  {
    assert entries[..i + 1][..i] == entries[..i];
  }


  /** On a bidirectional map, re-putting a held value under a new key leaves the forward map as it was. */
  lemma MirrorPutAsWrittenRebindsOnlyMirror<K, V>(m: View<K, V>, key: Option<K>, value: Option<V>)
    requires m.Bijective() && key !in m.forward && value in m.backward
    ensures MirrorPutAsWritten(m, key, value).0.forward == m.forward
    ensures MirrorPutAsWritten(m, key, value).0.backward[value] == key
    ensures !MirrorPutAsWritten(m, key, value).0.Bijective()
  {
    var r := MirrorPutAsWritten(m, key, value).0;
    var k0 := m.backward[value];
    assert r.forward[k0] == value && r.backward[value] == key != k0;
  }

  /** `put(1, 3)` on `{1: 2}` keeps 1 mapped to 2 and maps null to 3 instead. */
  lemma MirrorPutAsWrittenKeepsOldValue()
    ensures var m: View<int, int> := View(map[Some(1) := Some(2)], map[Some(2) := Some(1)]);
      var r := MirrorPutAsWritten(m, Some(1), Some(3)).0;
      m.Bijective() && r.forward[Some(1)] == Some(2) && r.forward[None] == Some(3) && !r.Bijective()
  {
    var m: View<int, int> := View(map[Some(1) := Some(2)], map[Some(2) := Some(1)]);
    var r := MirrorPutAsWritten(m, Some(1), Some(3)).0;
    assert r.backward == map[Some(3) := Some(1)];
    assert Some(1) in r.forward && r.forward[Some(1)] !in r.backward;
  }

  /** `put(1, 2)` on `{1: 1, 2: 2}` changes nothing, where the bijective put moves 2 to key 1. */
  lemma MirrorPutAsWrittenIgnoresHeldValue()
    ensures var m: View<int, int> := View(map[Some(1) := Some(1), Some(2) := Some(2)], map[Some(1) := Some(1), Some(2) := Some(2)]);
      MirrorPutAsWritten(m, Some(1), Some(2)) == (m, Some(2))
      && ForcePut(m, Some(1), Some(2)).forward == map[Some(1) := Some(2)]
  {
    var m: View<int, int> := View(map[Some(1) := Some(1), Some(2) := Some(2)], map[Some(1) := Some(1), Some(2) := Some(2)]);
    assert (m.forward - {Some(2)})[Some(1) := Some(2)] == map[Some(1) := Some(2)];
  }

  class BijectionHashMap<K(==), V(==)> {
    var forward: map<Option<K>, Option<V>>
    var mirror: map<Option<V>, Option<K>>

    function Contents(): View<K, V>
      reads this
    {
      View(forward, mirror)
    }

    constructor ()
      ensures forward == map[] && mirror == map[]
      ensures Contents().Bijective()
    {
      forward := map[];
      mirror := map[];
    }

    /** The copy constructor: an empty map followed by `putAll(m)`. */
    constructor Copy(m: Option<seq<(Option<K>, Option<V>)>>)
      ensures m.None? ==> forward == map[] && mirror == map[]
      ensures m.Some? ==> Contents() == MirrorPutEach(View(map[], map[]), m.value)
    {
      forward := map[];
      mirror := map[];
      new;
      PutAll(m);
    }

    /** `put`, as written. */
    method Put(key: Option<K>, value: Option<V>) returns (r: Option<V>)
      modifies this
      ensures (Contents(), r) == MirrorPutAsWritten(old(Contents()), key, value)
    {
      if key in forward && value in mirror {
        return value;
      }
      if key in forward {
        mirror := mirror - {forward[key]};
      } else if value in mirror {
        forward := forward - {key};
      }
      var previousKey := Previous(mirror, value);
      mirror := mirror[value := key];
      r := Previous(forward, previousKey);
      forward := forward[previousKey := value];
    }

    /** The evident intent of `put`, as for `BijectedHashMap`: `key` holds `value`, displaced entries are dropped. */
    method BijectivePut(key: Option<K>, value: Option<V>) returns (r: Option<V>)
      modifies this
      ensures Contents() == ForcePut(old(Contents()), key, value)
      ensures r == Previous(old(forward), key)
      ensures old(Contents()).Bijective() ==> Contents().Bijective() && forward[key] == value
    {
      r := Previous(forward, key);
      var staleValue := if key in forward then {forward[key]} else {};
      var staleKey := if value in mirror then {mirror[value]} else {};
      forward := (forward - staleKey)[key := value];
      mirror := (mirror - staleValue)[value := key];
      if old(Contents()).Bijective() {
        ForcePutIsBijective(old(Contents()), key, value);
      }
    }

    /** `remove`, as written: the mirror entry keyed by the answer goes, null included. */
    method Remove(key: Option<K>) returns (r: Option<V>)
      modifies this
      ensures (Contents(), r) == RemoveAsWritten(old(Contents()), key)
    {
      r := Previous(forward, key);
      forward := forward - {key};
      mirror := mirror - {r};
    }

    /** `remove` corrected: the mirror is touched only when the key was present. */
    method RemoveMapping(key: Option<K>) returns (r: Option<V>)
      modifies this
      ensures (Contents(), r) == RemoveKey(old(Contents()), key)
      ensures old(Contents()).Bijective() ==> Contents().Bijective() && key !in forward
    {
      if key in forward {
        r := Remove(key);
      } else {
        r := None;
      }
      if old(Contents()).Bijective() {
        RemoveKeyKeepsBijection(old(Contents()), key);
      }
    }

    /** `putAll`: nothing for a null or empty argument, otherwise `put` for each entry in order. */
    method PutAll(m: Option<seq<(Option<K>, Option<V>)>>)
      modifies this
      ensures m.None? ==> Contents() == old(Contents())
      ensures m.Some? ==> Contents() == MirrorPutEach(old(Contents()), m.value)
    {
      if m.None? || |m.value| == 0 {
        return;
      }
      var entries := m.value;
      var i := 0;
      while i < |entries|
        invariant 0 <= i <= |entries|
        invariant Contents() == MirrorPutEach(old(Contents()), entries[..i])
      {
        MirrorPutEachStep(old(Contents()), entries, i);
        var _ := Put(entries[i].0, entries[i].1);
        i := i + 1;
      }
      assert entries[..i] == entries;
    }

    method Clear()
      modifies this
      ensures forward == map[] && mirror == map[]
    {
      mirror := map[];
      forward := map[];
    }

    /** `values()`: the mirror's key set. */
    function Values(): (r: set<Option<V>>)
      reads this
      ensures r == mirror.Keys
    {
      mirror.Keys
    }

    /** `removeValue`: removes the key the mirror holds for the value, and answers it. */
    method RemoveValue(value: Option<V>) returns (r: Option<K>)
      modifies this
      ensures r == Previous(old(mirror), value)
      ensures Contents() == RemoveAsWritten(old(Contents()), r).0
      ensures old(Contents()).Bijective() && value in old(mirror) ==>
        Contents() == RemoveKey(old(Contents()), r).0 && Contents().Bijective() && value !in mirror
    {
      r := Previous(mirror, value);
      var _ := Remove(r);
      if old(Contents()).Bijective() && value in old(mirror) {
        RemoveKeyKeepsBijection(old(Contents()), r);
      }
    }
  }
}
