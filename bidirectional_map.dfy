/**
 * The `BidirectionalMap` interface: a map whose values are unique as well
 * as its keys, with an inverse view holding the same entries reversed. A
 * map is seen through its two directions; the default methods are written
 * against that view, and the implementation's `put` is an argument.
 */
module BidirectionalMap {
  import opened Wrappers

  /** The two directions of a bidirectional map; `None` stands for null. */
  datatype View<K(==), V(==)> = View(forward: map<Option<K>, Option<V>>, backward: map<Option<V>, Option<K>>)
  {
    /** Values are unique and the backward direction holds exactly the forward entries reversed. */
    ghost predicate Bijective()
    {
      (forall k :: k in forward ==> forward[k] in backward && backward[forward[k]] == k)
      && (forall v :: v in backward ==> backward[v] in forward && forward[backward[v]] == v)
    }

    /** `inverse()`: the same entries with keys and values exchanged. */
    function Inverse(): (r: View<V, K>)
      ensures r.forward == backward && r.backward == forward
    {
      View(backward, forward)
    }

    /** `getKey`: the key mapped to `value`, null when there is none. */
    function GetKey(value: Option<V>): (r: Option<K>)
      ensures value !in backward ==> r.None?
      ensures Bijective() && value in backward ==> r in forward && forward[r] == value
    {
      if value in backward then backward[value] else None
    }

    predicate ContainsValue(value: Option<V>)
    {
      value in backward
    }
  }

  /** The inverse of a bidirectional map is one too, and inverting twice gives the map back. */
  lemma InverseIsBijective<K, V>(m: View<K, V>)
    requires m.Bijective()
    ensures m.Inverse().Bijective()
    ensures m.Inverse().Inverse() == m
  {
  }

  /** No two keys share a value. */
  lemma ValuesAreUnique<K, V>(m: View<K, V>, k1: Option<K>, k2: Option<K>)
    requires m.Bijective() && k1 in m.forward && k2 in m.forward
    requires m.forward[k1] == m.forward[k2]
    ensures k1 == k2
  {
    assert m.backward[m.forward[k1]] == k1;
  }

  /**
   * `getOrDefaultKey`: the key of `value` when the map holds it (a null key
   * included, which `containsValue` tells apart), else the default.
   */
  function GetOrDefaultKey<K, V>(m: View<K, V>, value: Option<V>, defaultKey: Option<K>): (r: Option<K>)
    ensures value in m.backward ==> r == m.backward[value]
    ensures value !in m.backward ==> r == defaultKey
  {
    var k := m.GetKey(value);
    if k.Some? || m.ContainsValue(value) then k else defaultKey
  }

  /** On a bidirectional map the answer is the key whose value is `value`. */
  lemma GetOrDefaultKeyFindsKey<K, V>(m: View<K, V>, key: Option<K>, defaultKey: Option<K>)
    requires m.Bijective() && key in m.forward
    ensures GetOrDefaultKey(m, m.forward[key], defaultKey) == key
  {
  }

  /**
   * `replaceByKey`: when `value` is held under `oldKey`, `put(newKey,
   * value)` is called and the answer is true; otherwise nothing changes and
   * the answer is false. `put` is the implementation's and may throw.
   */
  function ReplaceByKey<K, V>(m: View<K, V>, value: Option<V>, oldKey: Option<K>, newKey: Option<K>,
                              put: (View<K, V>, Option<K>, Option<V>) -> Outcome<View<K, V>>): (r: Outcome<(bool, View<K, V>)>)
    ensures !(value in m.backward && m.backward[value] == oldKey) ==> r == Returned((false, m))
    ensures value in m.backward && m.backward[value] == oldKey ==>
      match put(m, newKey, value)
      case Returned(after) => r == Returned((true, after))
      case Threw(e) => r == Threw(e)
  {
    var curKey := m.GetKey(value);
    if curKey != oldKey || (curKey.None? && !m.ContainsValue(value)) then
      Returned((false, m))
    else
      match put(m, newKey, value)
      case Returned(after) => Returned((true, after))
      case Threw(e) => Threw(e)
  }

  /** On a bidirectional map `replaceByKey` acts exactly when `oldKey` is the key holding `value`. */
  lemma ReplaceByKeyActsOnHolder<K, V>(m: View<K, V>, oldKey: Option<K>, newKey: Option<K>,
                                       put: (View<K, V>, Option<K>, Option<V>) -> Outcome<View<K, V>>)
    requires m.Bijective() && oldKey in m.forward
    ensures ReplaceByKey(m, m.forward[oldKey], oldKey, newKey, put).Returned? ==>
      ReplaceByKey(m, m.forward[oldKey], oldKey, newKey, put).value.0
    ensures forall k :: k in m.forward && k != oldKey ==>
      ReplaceByKey(m, m.forward[oldKey], k, newKey, put) == Returned((false, m))
  {
  }

  /** The default methods the interface leaves unimplemented. */
  datatype Unimplemented =
    | PutIfAbsent | Replace | ComputeIfAbsent | ComputeIfKeyAbsent | ComputeIfPresent
    | ComputeIfKeyPresent | Compute | ComputeKey | Merge
    | RemoveMapping | ReplaceMapping

  /** What such a default answers: null, or false for the two boolean ones. */
  datatype StubAnswer = Null | False

  /** The unimplemented defaults never change the map; they answer null or false. */
  function UnimplementedDefault<K, V>(m: View<K, V>, op: Unimplemented): (r: (StubAnswer, View<K, V>))
    ensures r.1 == m
    ensures r.0 == False <==> op == RemoveMapping || op == ReplaceMapping
  {
    match op
    case RemoveMapping => (False, m)
    case ReplaceMapping => (False, m)
    case _ => (Null, m)
  }

  /** `replaceAll` is a no-op whatever the function. */
  function ReplaceAll<K, V>(m: View<K, V>, f: (Option<K>, Option<V>) -> Option<V>): (r: View<K, V>)
    ensures r == m
  {
    m
  }

  /**
   * What `put` evidently means on a bidirectional map: `key` now holds
   * `value`, and the entries that held either of them before are dropped so
   * that values stay unique.
   */
  function ForcePut<K, V>(m: View<K, V>, key: Option<K>, value: Option<V>): View<K, V>
  {
    var staleValue := if key in m.forward then {m.forward[key]} else {};
    var staleKey := if value in m.backward then {m.backward[value]} else {};
    View((m.forward - staleKey)[key := value], (m.backward - staleValue)[value := key])
  }

  /** `ForcePut` keeps the map bidirectional, stores the pair, and leaves every unrelated entry alone. */
  lemma ForcePutIsBijective<K, V>(m: View<K, V>, key: Option<K>, value: Option<V>)
    requires m.Bijective()
    ensures ForcePut(m, key, value).Bijective()
    ensures ForcePut(m, key, value).forward[key] == value
    ensures ForcePut(m, key, value).backward[value] == key
    ensures forall k :: k in m.forward && k != key && m.forward[k] != value ==>
      k in ForcePut(m, key, value).forward && ForcePut(m, key, value).forward[k] == m.forward[k]
    ensures forall k :: k in ForcePut(m, key, value).forward ==> k == key || k in m.forward
  {
    var r := ForcePut(m, key, value);
    forall k | k in r.forward
      ensures r.forward[k] in r.backward && r.backward[r.forward[k]] == k
    {
      if k != key {
        assert m.backward[m.forward[k]] == k;
      }
    }
    forall v | v in r.backward
      ensures r.backward[v] in r.forward && r.forward[r.backward[v]] == v
    {
      if v != value {
        assert m.forward[m.backward[v]] == v;
      }
    }
  }
}
