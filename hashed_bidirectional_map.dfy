/**
 * `HashedBidirectionalMap`: two `Nodes` tables kept in step, `bi` from
 * keys to values and `di` from values back to keys. The map's operations
 * are first stated on the pair of mappings the tables stand for (a
 * `View`), then carried out on the tables by the class below.
 */
module HashedBidirectionalMap {
  import opened Wrappers
  import opened HashedNodes
  import opened BidirectionalMap
  import opened BijectedHashMap
  import Hashing

  /* ---------------- Effects on the two mappings ---------------- */

  /** What `Nodes.put(k, v, onlyIfAbsent)` leaves: `k` holds `v`, unless it was held already and `onlyIfAbsent`. */
  function Stored<A(==), B>(m: map<Option<A>, Option<B>>, k: Option<A>, v: Option<B>, onlyIfAbsent: bool): (r: map<Option<A>, Option<B>>)
    ensures r.Keys == m.Keys + {k}
    ensures r[k] == if k in m && onlyIfAbsent then m[k] else v
    ensures forall j :: j in m && j != k ==> r[j] == m[j]
  {
    if k in m && onlyIfAbsent then m else m[k := v]
  }

  /**
   * `e.value = value` on the forward node of a held key, followed (when
   * the value changes) by `di.put(value, key)` and `di.remove(oldValue)`:
   * the common step of `put` and both `replace`s.
   */
  function Rebind<K, V>(m: View<K, V>, key: Option<K>, value: Option<V>): (r: View<K, V>)
    requires key in m.forward
    ensures r.forward == m.forward[key := value]
  {
    var oldValue := m.forward[key];
    if value == oldValue then View(m.forward[key := value], m.backward)
    else View(m.forward[key := value], m.backward[value := key] - {oldValue})
  }

  /**
   * On a bidirectional map, rebinding a key to a value no other key holds
   * keeps the map bidirectional, and the key's old value leaves the
   * inverse.
   */
  lemma RebindKeepsMirror<K, V>(m: View<K, V>, key: Option<K>, value: Option<V>)
    requires m.Bijective() && key in m.forward
    requires value in m.backward ==> m.backward[value] == key
    ensures Rebind(m, key, value).Bijective()
    ensures m.forward[key] != value ==> m.forward[key] !in Rebind(m, key, value).backward
  {
    var r := Rebind(m, key, value);
    var oldValue := m.forward[key];
    if value != oldValue {
      assert value !in m.backward;
      forall k | k in r.forward
        ensures r.forward[k] in r.backward && r.backward[r.forward[k]] == k
      {
        if k != key {
          assert m.backward[m.forward[k]] == k;
        }
      }
      forall v | v in r.backward
        ensures r.backward[v] in r.forward && r.forward[r.backward[v]] == v
      {
        if v != value {
          assert m.forward[m.backward[v]] == v;
        }
      }
    }
  }

  /**
   * `doPut(key, value, onlyIfAbsent)` as written. `bi.put` answers null
   * for a fresh key: `value -> key` goes into `di` and the following
   * `returned.orElse(null)` throws, both tables already changed. For a
   * held key whose value differs, `di` takes `value -> key` (subject to
   * `onlyIfAbsent`) and loses the old value, even when `onlyIfAbsent` kept
   * the forward value.
   */
  function WrittenPut<K, V>(m: View<K, V>, key: Option<K>, value: Option<V>, onlyIfAbsent: bool): (r: (Outcome<Option<V>>, View<K, V>))
    ensures r.1.forward == Stored(m.forward, key, value, onlyIfAbsent)
    ensures r.0.Threw? <==> key !in m.forward
    ensures r.0.Returned? ==> r.0.value == m.forward[key]
  {
    if key !in m.forward then
      (Threw(NullPointer), View(m.forward[key := value], Stored(m.backward, value, key, onlyIfAbsent)))
    else
      var oldValue := m.forward[key];
      var forward := Stored(m.forward, key, value, onlyIfAbsent);
      if value == oldValue then (Returned(oldValue), View(forward, m.backward))
      else (Returned(oldValue), View(forward, Stored(m.backward, value, key, onlyIfAbsent) - {oldValue}))
  }

  /**
   * `doPut` as evidently intended: a fresh key answers null, and a held
   * key under `onlyIfAbsent` leaves both tables alone.
   */
  function IntendedPut<K, V>(m: View<K, V>, key: Option<K>, value: Option<V>, onlyIfAbsent: bool): (r: (Option<V>, View<K, V>))
    ensures r.0 == Previous(m.forward, key)
    ensures r.1.forward == Stored(m.forward, key, value, onlyIfAbsent)
  {
    if key !in m.forward then (None, View(m.forward[key := value], Stored(m.backward, value, key, onlyIfAbsent)))
    else if onlyIfAbsent then (m.forward[key], m)
    else (m.forward[key], Rebind(m, key, value))
  }

  /**
   * The corrected `doPut` keeps a bidirectional map bidirectional whenever
   * the value is not already held by another key: the key maps to the
   * value (or keeps its own under `onlyIfAbsent`) and the inverse mirrors
   * it.
   */
  lemma IntendedPutKeepsMirror<K, V>(m: View<K, V>, key: Option<K>, value: Option<V>, onlyIfAbsent: bool)
    requires m.Bijective()
    requires value in m.backward ==> m.backward[value] == key
    ensures IntendedPut(m, key, value, onlyIfAbsent).1.Bijective()
  {
    if key in m.forward && !onlyIfAbsent {
      RebindKeepsMirror(m, key, value);
    } else if key !in m.forward {
      assert value !in m.backward;
    }
  }

  /**
   * Where the written `doPut` parts from the corrected one: the answer for
   * a fresh key, and `putIfAbsent` of a new value for a held key. In every
   * other case both leave the same mappings.
   */
  lemma WrittenPutDiffers<K, V>(m: View<K, V>, key: Option<K>, value: Option<V>, onlyIfAbsent: bool)
    ensures key !in m.forward ==> WrittenPut(m, key, value, onlyIfAbsent).1 == IntendedPut(m, key, value, onlyIfAbsent).1
    ensures key in m.forward && (!onlyIfAbsent || value == m.forward[key]) ==>
      WrittenPut(m, key, value, onlyIfAbsent) == (Returned(IntendedPut(m, key, value, onlyIfAbsent).0), IntendedPut(m, key, value, onlyIfAbsent).1)
  {
    if key in m.forward && !onlyIfAbsent {
      assert Stored(m.backward, value, key, false) == m.backward[value := key];
    }
  }

  /** `put(1, 2)` on an empty map throws NullPointerException, leaving 1 mapped to 2 in both tables. */
  lemma FreshPutThrows()
    ensures var r := WrittenPut(View<int, int>.View(map[], map[]), Some(1), Some(2), false);
      r.0 == Threw(NullPointer) && r.1 == View(map[Some(1) := Some(2)], map[Some(2) := Some(1)]) && r.1.Bijective()
  {
    var empty: View<int, int> := View(map[], map[]);
    var r := WrittenPut(empty, Some(1), Some(2), false);
    assert r.1.forward == map[Some(1) := Some(2)];
    assert r.1.backward == map[Some(2) := Some(1)];
  }

  /** `putIfAbsent(1, 2)` on `{1: 1}` keeps 1 mapped to 1 but rewrites the inverse to `{2: 1}`. */
  lemma PutIfAbsentEditsInverse()
    ensures var m: View<int, int> := View(map[Some(1) := Some(1)], map[Some(1) := Some(1)]);
      var r := WrittenPut(m, Some(1), Some(2), true);
      m.Bijective() && r == (Returned(Some(1)), View(m.forward, map[Some(2) := Some(1)])) && !r.1.Bijective()
      && IntendedPut(m, Some(1), Some(2), true) == (Some(1), m)
  {
    var m: View<int, int> := View(map[Some(1) := Some(1)], map[Some(1) := Some(1)]);
    var r := WrittenPut(m, Some(1), Some(2), true);
    assert r.1.backward == map[Some(2) := Some(1)];
    assert r.1.forward[Some(1)] !in r.1.backward;
  }

  /** `put(1, 2)` on `{1: 1, 2: 2}` leaves two keys mapped to 2: the other holder of a value is not evicted. */
  lemma DuplicateValueKept()
    ensures var m: View<int, int> := View(map[Some(1) := Some(1), Some(2) := Some(2)], map[Some(1) := Some(1), Some(2) := Some(2)]);
      var r := WrittenPut(m, Some(1), Some(2), false);
      m.Bijective() && r.1.forward == map[Some(1) := Some(2), Some(2) := Some(2)] && !r.1.Bijective()
  {
    var m: View<int, int> := View(map[Some(1) := Some(1), Some(2) := Some(2)], map[Some(1) := Some(1), Some(2) := Some(2)]);
    var r := WrittenPut(m, Some(1), Some(2), false);
    assert r.1.backward == map[Some(2) := Some(1)];
    assert r.1.backward[r.1.forward[Some(2)]] != Some(2);
  }

  /** `remove(key, value)`: both entries go when `key` holds `value`; the answer says whether it did. */
  function PairRemoved<K, V>(m: View<K, V>, key: Option<K>, value: Option<V>): (r: (bool, View<K, V>))
    ensures r.0 <==> key in m.forward && m.forward[key] == value
    ensures !r.0 ==> r.1 == m
  {
    if key in m.forward && m.forward[key] == value then (true, View(m.forward - {key}, m.backward - {value}))
    else (false, m)
  }

  /** A successful `remove(key, value)` is `remove(key)`, and keeps a bidirectional map bidirectional. */
  lemma PairRemovedKeepsMirror<K, V>(m: View<K, V>, key: Option<K>, value: Option<V>)
    requires m.Bijective()
    ensures PairRemoved(m, key, value).1.Bijective()
    ensures PairRemoved(m, key, value).0 ==> PairRemoved(m, key, value).1 == RemoveKey(m, key).0
  {
    RemoveKeyKeepsBijection(m, key);
  }

  /** `replace(key, oldValue, newValue)`: rebinds `key` when it holds `oldValue`; the answer says whether it did. */
  function ReplacedIf<K, V>(m: View<K, V>, key: Option<K>, oldValue: Option<V>, newValue: Option<V>): (r: (bool, View<K, V>))
    ensures r.0 <==> key in m.forward && m.forward[key] == oldValue
    ensures r.0 ==> r.1.forward == m.forward[key := newValue]
    ensures !r.0 ==> r.1 == m
  {
    if key in m.forward && m.forward[key] == oldValue then (true, Rebind(m, key, newValue)) else (false, m)
  }

  /** `replace(key, value)`: rebinds a held key and answers its old value; an absent key changes nothing and answers null. */
  function Replaced<K, V>(m: View<K, V>, key: Option<K>, value: Option<V>): (r: (Option<V>, View<K, V>))
    ensures r.0 == Previous(m.forward, key)
    ensures key in m.forward ==> r.1.forward == m.forward[key := value]
    ensures key !in m.forward ==> r.1 == m
  {
    if key in m.forward then (m.forward[key], Rebind(m, key, value)) else (None, m)
  }

  /** Both `replace`s keep a bidirectional map bidirectional when no other key holds the new value. */
  lemma ReplaceKeepsMirror<K, V>(m: View<K, V>, key: Option<K>, oldValue: Option<V>, value: Option<V>)
    requires m.Bijective()
    requires value in m.backward ==> m.backward[value] == key
    ensures ReplacedIf(m, key, oldValue, value).1.Bijective()
    ensures Replaced(m, key, value).1.Bijective()
  {
    if key in m.forward {
      RebindKeepsMirror(m, key, value);
    }
  }

  /** `keySet().remove(key)` as written: `remove(key) != null`. */
  function KeyRemovedAsWritten<K, V>(m: View<K, V>, key: Option<K>): (r: (bool, View<K, V>))
    ensures r.1 == RemoveKey(m, key).0
    ensures r.0 ==> key in m.forward
  {
    (RemoveKey(m, key).1.Some?, RemoveKey(m, key).0)
  }

  /** `keySet().remove(key)` as evidently intended: true exactly when a mapping was removed. */
  function KeyRemoved<K, V>(m: View<K, V>, key: Option<K>): (r: (bool, View<K, V>))
    ensures r.0 <==> key in m.forward
    ensures r.1 == RemoveKey(m, key).0
  {
    (key in m.forward, RemoveKey(m, key).0)
  }

  /** On `{1: null}`, `keySet().remove(1)` removes the mapping yet answers false. */
  lemma KeyRemovedMissesNullValue()
    ensures var m: View<int, int> := View(map[Some(1) := None], map[None := Some(1)]);
      var r := KeyRemovedAsWritten(m, Some(1));
      m.Bijective() && !r.0 && Some(1) !in r.1.forward && KeyRemoved(m, Some(1)).0
  {
    var m: View<int, int> := View(map[Some(1) := None], map[None := Some(1)]);
    assert Some(1) in m.forward;
  }

  /** `values().remove(value)`: `remove` on the inverse side, answering whether the value was held. */
  function ValueRemoved<K, V>(m: View<K, V>, value: Option<V>): (r: (bool, View<K, V>))
    ensures r.0 <==> value in m.backward
    ensures r.1.Inverse() == RemoveKey(m.Inverse(), value).0
    ensures value in m.backward ==> r.1 == View(m.forward - {m.backward[value]}, m.backward - {value})
    ensures value !in m.backward ==> r.1 == m
  {
    var (n, _) := RemoveKey(m.Inverse(), value);
    (value in m.backward, n.Inverse())
  }

  /** Removing a value keeps a bidirectional map bidirectional and drops its key. */
  lemma ValueRemovedKeepsMirror<K, V>(m: View<K, V>, value: Option<V>)
    requires m.Bijective()
    ensures ValueRemoved(m, value).1.Bijective()
    ensures value in m.backward ==> ValueRemoved(m, value).1 == RemoveKey(m, m.backward[value]).0
  {
    InverseIsBijective(m);
    RemoveKeyKeepsBijection(m.Inverse(), value);
    InverseIsBijective(RemoveKey(m.Inverse(), value).0);
  }

  /** `entrySet().contains(e)`: `e` is a `Map.Entry` whose key the map holds with an equal value. */
  predicate EntryContains<K, V>(m: View<K, V>, e: Option<(Option<K>, Option<V>)>)
  {
    e.Some? && e.value.0 in m.forward && m.forward[e.value.0] == e.value.1
  }

  /** On a bidirectional map an entry is in the entry set exactly when its reverse is in the inverse entry set. */
  lemma EntrySetsMirror<K, V>(m: View<K, V>, key: Option<K>, value: Option<V>)
    requires m.Bijective()
    ensures EntryContains(m, Some((key, value))) <==> EntryContains(m.Inverse(), Some((value, key)))
  {
    if EntryContains(m.Inverse(), Some((value, key))) {
      assert m.forward[m.backward[value]] == value;
    }
  }

  /** `entrySet().remove(e)`: `remove(key, value)` for a `Map.Entry`, false for anything else. */
  function EntryRemoved<K, V>(m: View<K, V>, e: Option<(Option<K>, Option<V>)>): (r: (bool, View<K, V>))
    ensures r.0 <==> EntryContains(m, e)
    ensures r.0 ==> r.1 == RemoveKey(m, e.value.0).0
    ensures !r.0 ==> r.1 == m
  {
    if e.Some? then PairRemoved(m, e.value.0, e.value.1) else (false, m)
  }

  /** `inverseEntrySet().remove(e)`: `remove(value, key)` for an inverse entry `value -> key`. */
  function InverseEntryRemoved<K, V>(m: View<K, V>, e: Option<(Option<V>, Option<K>)>): (r: (bool, View<K, V>))
    ensures !r.0 ==> r.1 == m
  {
    if e.Some? then PairRemoved(m, e.value.1, e.value.0) else (false, m)
  }

  /** On a bidirectional map, removing an inverse entry is removing it from the inverse. */
  lemma InverseEntryRemovedMirrors<K, V>(m: View<K, V>, e: Option<(Option<V>, Option<K>)>)
    requires m.Bijective()
    ensures InverseEntryRemoved(m, e).0 <==> EntryContains(m.Inverse(), e)
    ensures InverseEntryRemoved(m, e).1.Bijective()
    ensures InverseEntryRemoved(m, e).1.Inverse() == EntryRemoved(m.Inverse(), e).1
  {
    if e.Some? {
      var (value, key) := e.value;
      EntrySetsMirror(m, key, value);
      PairRemovedKeepsMirror(m, key, value);
      if key in m.forward && m.forward[key] == value {
        assert m.backward[value] == key;
      }
    }
  }

  /** `Map.Entry.setValue` on a forward node: only the forward table sees the new value. */
  function EntrySetValue<K, V>(m: View<K, V>, key: Option<K>, value: Option<V>): (r: (Option<V>, View<K, V>))
    requires key in m.forward
    ensures r.0 == m.forward[key] && r.1.backward == m.backward
  {
    (m.forward[key], View(m.forward[key := value], m.backward))
  }

  /** Setting a new value through an entry always breaks the mirror. */
  lemma EntrySetValueBreaksMirror<K, V>(m: View<K, V>, key: Option<K>, value: Option<V>)
    requires m.Bijective() && key in m.forward && m.forward[key] != value
    ensures !EntrySetValue(m, key, value).1.Bijective()
  {
    var r := EntrySetValue(m, key, value).1;
    if value in m.backward {
      assert m.forward[m.backward[value]] == value;
    }
    assert r.forward[key] == value;
  }

  /** The two directions of a bidirectional map have as many entries. */
  lemma {:induction false} MirrorSizes<K, V>(m: View<K, V>)
    requires m.Bijective()
    ensures |m.forward| == |m.backward|
    decreases |m.forward|
  {
    if |m.forward| > 0 {
      var k :| k in m.forward;
      var n := RemoveKey(m, k).0;
      RemoveKeyKeepsBijection(m, k);
      MirrorSizes(n);
      assert m.forward[k] in m.backward;
    }
    else {
      assert m.backward.Keys == {};
    }
  }

  /* ---------------- The map ---------------- */

  /**
   * The map itself: the forward table `bi` and the inverse table `di`. The
   * cached key, value and entry views hold no state and are left out; their
   * operations are methods here.
   */
  class HashedBidirectionalMap<K(==), V(==)> {
    const bi: Nodes<K, V>
    const di: Nodes<V, K>

    /** Both tables keep their own invariant and share no storage. */
    ghost predicate Valid()
      reads this, bi, bi.table, di, di.table
    {
      bi.Valid() && di.Valid() && bi as object != di
      && (bi.table == null || di.table == null || bi.table as object != di.table)
    }

    /** The mappings the two tables stand for. */
    ghost function Contents(): View<K, V>
      reads this, bi, di
    {
      View(bi.contents, di.contents)
    }

    /** The inverse table holds exactly the forward entries reversed. */
    ghost predicate Mirrored()
      reads this, bi, di
    {
      Contents().Bijective()
    }


    /* Single-table steps: each touches one table and leaves the other's mappings alone. */

    /** `bi.put(key, value, onlyIfAbsent)`: answers the previous value, `None` standing for Java's null. */
    method PutForward(key: Option<K>, value: Option<V>, onlyIfAbsent: bool) returns (r: Option<Option<V>>)
      requires Valid()
      modifies bi, bi.table
      ensures Valid() && di.contents == old(di.contents) && di.table == old(di.table)
      ensures bi.table == old(bi.table) || fresh(bi.table)
      ensures r == if key in old(bi.contents) then Some(old(bi.contents)[key]) else None
      ensures bi.contents == Stored(old(bi.contents), key, value, onlyIfAbsent)
    {
      r := bi.Put(key, value, onlyIfAbsent);
    }

    /** `di.put(value, key, onlyIfAbsent)`, its answer unused. */
    method PutInverse(value: Option<V>, key: Option<K>, onlyIfAbsent: bool)
      requires Valid()
      modifies di, di.table
      ensures Valid() && bi.contents == old(bi.contents) && bi.table == old(bi.table)
      ensures di.table == old(di.table) || fresh(di.table)
      ensures di.contents == Stored(old(di.contents), value, key, onlyIfAbsent)
    {
      var _ := di.Put(value, key, onlyIfAbsent);
    }

    /** `bi.remove(key, value, matchValue, movable)`: answers the node removed. */
    method RemoveForward(key: Option<K>, value: Option<V>, matchValue: bool, movable: bool) returns (r: Option<Node<K, V>>)
      requires Valid()
      modifies bi, bi.table
      ensures Valid() && di.contents == old(di.contents) && di.table == old(di.table)
      ensures bi.table == old(bi.table) || fresh(bi.table)
      ensures var hit := key in old(bi.contents) && (!matchValue || old(bi.contents)[key] == value);
        (r.Some? <==> hit)
        && (hit ==> r.value.key == key && r.value.value == old(bi.contents)[key] && bi.contents == old(bi.contents) - {key})
        && (!hit ==> bi.contents == old(bi.contents))
      ensures !matchValue ==> bi.contents == old(bi.contents) - {key}
    {
      r := bi.Remove(key, value, matchValue, movable);
      if key !in old(bi.contents) {
        assert old(bi.contents) - {key} == old(bi.contents);
      }
    }

    /** `di.remove(value, null, false, movable)`: answers the node removed. */
    method RemoveInverse(value: Option<V>, movable: bool) returns (r: Option<Node<V, K>>)
      requires Valid()
      modifies di, di.table
      ensures Valid() && bi.contents == old(bi.contents) && bi.table == old(bi.table)
      ensures di.table == old(di.table) || fresh(di.table)
      ensures (r.Some? <==> value in old(di.contents))
      ensures r.Some? ==> r.value.key == value && r.value.value == old(di.contents)[value]
      ensures di.contents == old(di.contents) - {value}
    {
      r := di.Remove(value, None, false, movable);
      if value !in old(di.contents) {
        assert old(di.contents) - {value} == old(di.contents);
      }
    }

    /** `e.value = value` on the forward node of a held key. */
    method SetForward(key: Option<K>, value: Option<V>)
      requires Valid() && key in bi.contents
      modifies bi, bi.table
      ensures Valid() && di.contents == old(di.contents) && di.table == old(di.table)
      ensures bi.table == old(bi.table) || fresh(bi.table)
      ensures bi.contents == old(bi.contents)[key := value]
    {
      bi.SetValue(key, value);
    }

    /**
     * The checked constructor body: the capacity is capped at
     * `MAXIMUM_CAPACITY`, a null hasher stands for `HASHMAP`, and both
     * tables start empty, unallocated, with the same settings.
     */
    constructor (initialCapacity: int, loadFactor: real, hasher: Option<Hashing.Hasher>, keyHashCode: K -> bv32, valueHashCode: V -> bv32)
      requires 0 <= initialCapacity <= IntMax && loadFactor > 0.0
      ensures Valid() && Mirrored() && fresh(bi) && fresh(di)
      ensures Contents() == View(map[], map[]) && bi.table == null && di.table == null
      ensures bi.loadFactor == loadFactor && di.loadFactor == loadFactor
      ensures bi.hasher == hasher.GetOr(Hashing.HashMap) && di.hasher == hasher.GetOr(Hashing.HashMap)
      ensures var cap := if initialCapacity > MaximumCapacity then MaximumCapacity else initialCapacity;
        bi.threshold == Signed(TableSizeFor(cap as bv32)) && di.threshold == bi.threshold
    {
      var cap := if initialCapacity > MaximumCapacity then MaximumCapacity else initialCapacity;
      var h := if hasher.None? then Hashing.HashMap else hasher.value;
      bi := new Nodes(cap as bv32, loadFactor, h, keyHashCode);
      di := new Nodes(cap as bv32, loadFactor, h, valueHashCode);
    }

    /** The private constructor `inverse()` uses: the given tables, shared. */
    constructor Sharing(bi: Nodes<K, V>, di: Nodes<V, K>)
      ensures this.bi == bi && this.di == di
    {
      this.bi := bi;
      this.di := di;
    }

    /**
     * `new HashedBidirectionalMap(initialCapacity, loadFactor, hasher)`: a
     * negative capacity or a non-positive load factor is an
     * IllegalArgumentException.
     */
    static method Create(initialCapacity: int, loadFactor: real, hasher: Option<Hashing.Hasher>, keyHashCode: K -> bv32, valueHashCode: V -> bv32)
      returns (r: Outcome<HashedBidirectionalMap<K, V>>)
      requires -IntMax - 1 <= initialCapacity <= IntMax
      ensures r.Threw? <==> initialCapacity < 0 || loadFactor <= 0.0
      ensures r.Threw? ==> r.error == IllegalArgument
      ensures r.Returned? ==> fresh(r.value) && r.value.Valid() && r.value.Contents() == View(map[], map[])
    {
      if initialCapacity < 0 || loadFactor <= 0.0 {
        return Threw(IllegalArgument);
      }
      var m := new HashedBidirectionalMap(initialCapacity, loadFactor, hasher, keyHashCode, valueHashCode);
      return Returned(m);
    }

    /** The no-argument constructor: capacity 16, load factor 0.75, the `HASHMAP` hasher. */
    static method Default(keyHashCode: K -> bv32, valueHashCode: V -> bv32) returns (m: HashedBidirectionalMap<K, V>)
      ensures fresh(m) && m.Valid() && m.Contents() == View(map[], map[])
      ensures m.bi.loadFactor == DefaultLoadFactor && m.bi.hasher == Hashing.HashMap
    {
      m := new HashedBidirectionalMap(DefaultInitialCapacity, DefaultLoadFactor, None, keyHashCode, valueHashCode);
    }

    /** `size()`: the forward table's count, which is the number of mappings. */
    function Size(): (r: int)
      reads this, bi, bi.table, di, di.table
      requires Valid()
      ensures r == |Contents().forward|
    {
      bi.size
    }

    function IsEmpty(): (r: bool)
      reads this, bi, bi.table, di, di.table
      requires Valid()
      ensures r <==> Contents().forward == map[]
    {
      bi.size == 0
    }

    /** On a mirrored map the size counts the inverse entries too. */
    lemma SizeCountsValues()
      requires Valid() && Mirrored()
      ensures Size() == |Contents().backward|
    {
      MirrorSizes(Contents());
    }

    /** `containsKey` (and `keySet().contains`): the forward table holds the key. */
    method ContainsKey(key: Option<K>) returns (b: bool)
      requires Valid()
      ensures b <==> key in Contents().forward
      ensures Mirrored() ==> (b <==> exists v :: v in di.contents && di.contents[v] == key)
    {
      var e := bi.Get(key);
      b := e.Some?;
      if Mirrored() && !b {
        forall v | v in di.contents
          ensures di.contents[v] != key
        {
          assert bi.contents[di.contents[v]] == v;
        }
      }
    }

    /** `containsValue` (and `values().contains`): the inverse table holds the value. */
    method ContainsValue(value: Option<V>) returns (b: bool)
      requires Valid()
      ensures b <==> value in Contents().backward
      ensures Mirrored() ==> (b <==> exists k :: k in bi.contents && bi.contents[k] == value)
    {
      var e := di.Get(value);
      b := e.Some?;
      if Mirrored() && !b {
        forall k | k in bi.contents
          ensures bi.contents[k] != value
        {
          assert di.contents[bi.contents[k]] == k;
        }
      }
    }

    /** `get`: the key's value, null when absent; on a mirrored map `getKey` of the answer leads back to the key. */
    method Get(key: Option<K>) returns (r: Option<V>)
      requires Valid()
      ensures r == Previous(Contents().forward, key)
      ensures Mirrored() && key in bi.contents ==> r in di.contents && di.contents[r] == key
    {
      var e := bi.Get(key);
      r := if e.Some? then e.value.value else None;
    }

    /** `getKey`: the value's key, null when absent; on a mirrored map `get` of the answer leads back to the value. */
    method GetKey(value: Option<V>) returns (r: Option<K>)
      requires Valid()
      ensures r == Previous(Contents().backward, value)
      ensures Mirrored() && value in di.contents ==> r in bi.contents && bi.contents[r] == value
    {
      var e := di.Get(value);
      r := if e.Some? then e.value.value else None;
    }

    /** `getOrDefault`: the key's value when held (null included), else the default. */
    method GetOrDefault(key: Option<K>, defaultValue: Option<V>) returns (r: Option<V>)
      requires Valid()
      ensures key in Contents().forward ==> r == Contents().forward[key]
      ensures key !in Contents().forward ==> r == defaultValue
    {
      var e := bi.Get(key);
      r := if e.Some? then e.value.value else defaultValue;
    }

    /** `doPut`, as written. */
    method DoPut(key: Option<K>, value: Option<V>, onlyIfAbsent: bool) returns (r: Outcome<Option<V>>)
      requires Valid()
      modifies bi, bi.table, di, di.table
      ensures Valid()
      ensures (r, Contents()) == WrittenPut(old(Contents()), key, value, onlyIfAbsent)
    {
      var returned := PutForward(key, value, onlyIfAbsent);
      if returned.None? {
        PutInverse(value, key, onlyIfAbsent);
        return Threw(NullPointer);
      }
      var oldValue := returned.value;
      if value != oldValue {
        PutInverse(value, key, onlyIfAbsent);
        var _ := RemoveInverse(oldValue, true);
      }
      return Returned(oldValue);
    }

    /** `put(key, value)`: `doPut` without `onlyIfAbsent`. */
    method Put(key: Option<K>, value: Option<V>) returns (r: Outcome<Option<V>>)
      requires Valid()
      modifies bi, bi.table, di, di.table
      ensures Valid()
      ensures (r, Contents()) == WrittenPut(old(Contents()), key, value, false)
      ensures old(Mirrored()) && key in old(bi.contents) && (value in old(di.contents) ==> old(di.contents)[value] == key) ==>
        Mirrored() && r == Returned(old(bi.contents)[key]) && bi.contents == old(bi.contents)[key := value]
    {
      r := DoPut(key, value, false);
      if old(Mirrored()) && key in old(bi.contents) && (value in old(di.contents) ==> old(di.contents)[value] == key) {
        WrittenPutDiffers(old(Contents()), key, value, false);
        IntendedPutKeepsMirror(old(Contents()), key, value, false);
      }
    }

    /** `putIfAbsent(key, value)`: `doPut` with `onlyIfAbsent`. */
    method PutIfAbsent(key: Option<K>, value: Option<V>) returns (r: Outcome<Option<V>>)
      requires Valid()
      modifies bi, bi.table, di, di.table
      ensures Valid()
      ensures (r, Contents()) == WrittenPut(old(Contents()), key, value, true)
    {
      r := DoPut(key, value, true);
    }

    /**
     * `doPut` corrected: a fresh key answers null, and `putIfAbsent` on a
     * held key touches neither table (`IntendedPutKeepsMirror` states when
     * the result stays mirrored).
     */
    method DoPutIntended(key: Option<K>, value: Option<V>, onlyIfAbsent: bool) returns (r: Option<V>)
      requires Valid()
      modifies bi, bi.table, di, di.table
      ensures Valid()
      ensures (r, Contents()) == IntendedPut(old(Contents()), key, value, onlyIfAbsent)
    {
      ghost var m := Contents();
      var returned := PutForward(key, value, onlyIfAbsent);
      if returned.None? {
        PutInverse(value, key, onlyIfAbsent);
        r := None;
      } else {
        r := returned.value;
        if onlyIfAbsent {
          assert Contents() == m;
        } else if value != r {
          PutInverse(value, key, false);
          var _ := RemoveInverse(r, true);
          assert Contents() == Rebind(m, key, value);
        }
      }
    }

    /** `remove(key)` (`doRemove`): the key's entry and the inverse entry of its value go; answers the value. */
    method Remove(key: Option<K>) returns (r: Option<V>)
      requires Valid()
      modifies bi, bi.table, di, di.table
      ensures Valid()
      ensures (Contents(), r) == RemoveKey(old(Contents()), key)
      ensures old(Mirrored()) ==> Mirrored() && key !in bi.contents
    {
      var e := RemoveForward(key, None, false, true);
      if e.Some? {
        var value := e.value.value;
        var _ := RemoveInverse(value, true);
        r := value;
      } else {
        r := None;
      }
      if old(Mirrored()) {
        RemoveKeyKeepsBijection(old(Contents()), key);
      }
    }

    /** `remove(key, value)`: both entries go when the key holds the value. */
    method RemoveMapping(key: Option<K>, value: Option<V>) returns (b: bool)
      requires Valid()
      modifies bi, bi.table, di, di.table
      ensures Valid()
      ensures (b, Contents()) == PairRemoved(old(Contents()), key, value)
      ensures old(Mirrored()) ==> Mirrored()
    {
      var removed := RemoveForward(key, value, true, true);
      if removed.Some? {
        var _ := RemoveInverse(value, true);
        b := true;
      } else {
        b := false;
      }
      if old(Mirrored()) {
        PairRemovedKeepsMirror(old(Contents()), key, value);
      }
    }

    /** The rebinding step both `replace`s share: `e.value = value`, then the inverse entry moves when the value changes. */
    method Rebinding(key: Option<K>, oldValue: Option<V>, value: Option<V>)
      requires Valid() && key in bi.contents && bi.contents[key] == oldValue
      modifies bi, bi.table, di, di.table
      ensures Valid() && Contents() == Rebind(old(Contents()), key, value)
      ensures old(Mirrored()) && (value in old(di.contents) ==> old(di.contents)[value] == key) ==> Mirrored()
    {
      ghost var m := Contents();
      SetForward(key, value);
      if oldValue != value {
        PutInverse(value, key, false);
        var _ := RemoveInverse(oldValue, true);
      }
      assert Contents() == Rebind(m, key, value);
      if m.Bijective() && (value in m.backward ==> m.backward[value] == key) {
        RebindKeepsMirror(m, key, value);
      }
    }

    /** `replace(key, oldValue, newValue)`. */
    method ReplaceIf(key: Option<K>, oldValue: Option<V>, newValue: Option<V>) returns (b: bool)
      requires Valid()
      modifies bi, bi.table, di, di.table
      ensures Valid()
      ensures (b, Contents()) == ReplacedIf(old(Contents()), key, oldValue, newValue)
    {
      var e := bi.Get(key);
      if e.Some? && e.value.value == oldValue {
        Rebinding(key, e.value.value, newValue);
        b := true;
      } else {
        b := false;
      }
    }

    /** `replace(key, value)`. */
    method Replace(key: Option<K>, value: Option<V>) returns (r: Option<V>)
      requires Valid()
      modifies bi, bi.table, di, di.table
      ensures Valid()
      ensures (r, Contents()) == Replaced(old(Contents()), key, value)
    {
      var e := bi.Get(key);
      if e.Some? {
        r := e.value.value;
        Rebinding(key, r, value);
      } else {
        r := None;
      }
    }

    /** `clear` (and the views' `clear`): both tables emptied, every bucket nulled. */
    method Clear()
      requires Valid()
      modifies bi, bi.table, di, di.table
      ensures Valid() && Mirrored()
      ensures Contents() == View(map[], map[])
      ensures bi.Bins() == EmptyBins(bi.Capacity()) && di.Bins() == EmptyBins(di.Capacity())
      ensures bi.modCount == old(bi.modCount) + 1 && di.modCount == old(di.modCount) + 1
    {
      bi.Clear();
      di.Clear();
    }

    /** `inverse()`: a new map over the same two tables, roles exchanged. */
    method Inverse() returns (r: HashedBidirectionalMap<V, K>)
      ensures fresh(r) && r.bi == di && r.di == bi
      ensures r.Contents() == Contents().Inverse()
      ensures Valid() ==> r.Valid()
      ensures Mirrored() ==> r.Mirrored()
    {
      r := new HashedBidirectionalMap.Sharing(di, bi);
      if Mirrored() {
        InverseIsBijective(Contents());
      }
    }

    /** `keySet().remove(key)`, as written: `remove(key) != null`. */
    method KeySetRemove(key: Option<K>) returns (b: bool)
      requires Valid()
      modifies bi, bi.table, di, di.table
      ensures Valid()
      ensures (b, Contents()) == KeyRemovedAsWritten(old(Contents()), key)
      ensures old(Mirrored()) ==> Mirrored()
    {
      var r := Remove(key);
      b := r.Some?;
    }

    /** `values().remove(value)`: the value's inverse entry goes, then the forward entry of its key. */
    method ValueSetRemove(value: Option<V>) returns (b: bool)
      requires Valid()
      modifies bi, bi.table, di, di.table
      ensures Valid()
      ensures (b, Contents()) == ValueRemoved(old(Contents()), value)
      ensures old(Mirrored()) ==> Mirrored()
    {
      var e := RemoveInverse(value, true);
      if e.Some? {
        var _ := RemoveForward(e.value.value, None, false, true);
      } else {
        assert di.contents == old(di.contents);
      }
      b := e.Some?;
      if old(Mirrored()) {
        ValueRemovedKeepsMirror(old(Contents()), value);
      }
    }

    /** `entrySet().contains(e)`: the forward node of `e`'s key equals `e`. */
    method EntrySetContains(e: Option<(Option<K>, Option<V>)>) returns (b: bool)
      requires Valid()
      ensures b == EntryContains(Contents(), e)
      ensures Mirrored() && e.Some? ==> (b <==> EntryContains(Contents().Inverse(), Some((e.value.1, e.value.0))))
    {
      if e.None? {
        return false;
      }
      var candidate := bi.Get(e.value.0);
      b := candidate.Some? && candidate.value.key == e.value.0 && candidate.value.value == e.value.1;
      if Mirrored() {
        EntrySetsMirror(Contents(), e.value.0, e.value.1);
      }
    }

    /** `inverseEntrySet().contains(e)`: the inverse node of `e`'s key equals `e`. */
    method InverseEntrySetContains(e: Option<(Option<V>, Option<K>)>) returns (b: bool)
      requires Valid()
      ensures b == EntryContains(Contents().Inverse(), e)
    {
      if e.None? {
        return false;
      }
      var candidate := di.Get(e.value.0);
      b := candidate.Some? && candidate.value.key == e.value.0 && candidate.value.value == e.value.1;
    }

    /** `entrySet().remove(e)`: `remove(key, value)` for an entry. */
    method EntrySetRemove(e: Option<(Option<K>, Option<V>)>) returns (b: bool)
      requires Valid()
      modifies bi, bi.table, di, di.table
      ensures Valid()
      ensures (b, Contents()) == EntryRemoved(old(Contents()), e)
      ensures old(Mirrored()) ==> Mirrored()
    {
      if e.None? {
        return false;
      }
      b := RemoveMapping(e.value.0, e.value.1);
    }

    /** `inverseEntrySet().remove(e)`: `remove(value, key)` for an inverse entry `value -> key`. */
    method InverseEntrySetRemove(e: Option<(Option<V>, Option<K>)>) returns (b: bool)
      requires Valid()
      modifies bi, bi.table, di, di.table
      ensures Valid()
      ensures (b, Contents()) == InverseEntryRemoved(old(Contents()), e)
      ensures old(Mirrored()) ==> Mirrored()
    {
      if e.None? {
        return false;
      }
      b := RemoveMapping(e.value.1, e.value.0);
    }

    /** `setValue` on an entry of a held key: only the forward node changes. */
    method SetEntryValue(key: Option<K>, value: Option<V>) returns (r: Option<V>)
      requires Valid() && key in bi.contents
      modifies bi, bi.table
      ensures Valid()
      ensures (r, Contents()) == EntrySetValue(old(Contents()), key, value)
    {
      var e := bi.Get(key);
      r := e.value.value;
      SetForward(key, value);
    }
  }
}
