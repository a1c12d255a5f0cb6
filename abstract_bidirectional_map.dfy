/**
 * `AbstractBidirectionalMap`: the skeletal bidirectional map. A subclass
 * supplies the entry set and the inverse entry set; every query here is a
 * linear scan of one of them, in iteration order. The two sets are modelled
 * as sequences of entries (their iteration order) held by the object; what
 * their iterators' `remove` does is to drop the element just returned.
 */
module AbstractBidirectionalMap {
  import opened Wrappers

  /** A `Map.Entry`; `None` stands for a null key or value. */
  datatype Entry<A, B> = Entry(key: Option<A>, value: Option<B>)

  function Swap<A, B>(e: Entry<A, B>): Entry<B, A>
  {
    Entry(e.value, e.key)
  }

  ghost predicate DistinctKeys<A, B>(es: seq<Entry<A, B>>)
  {
    forall i, j :: 0 <= i < j < |es| ==> es[i].key != es[j].key
  }

  /**
   * The bidirectional-map invariant on the two entry sets: keys are unique
   * in each, and each set holds exactly the other's entries reversed.
   */
  ghost predicate Mirrored<K, V>(es: seq<Entry<K, V>>, ies: seq<Entry<V, K>>)
  {
    DistinctKeys(es) && DistinctKeys(ies)
    && (forall e :: e in es ==> Swap(e) in ies)
    && (forall e :: e in ies ==> Swap(e) in es)
  }

  /** The position of the first entry whose key is `key` (null-safe equality). */
  function FirstIndex<A(==), B>(es: seq<Entry<A, B>>, key: Option<A>): (r: Option<nat>)
    ensures r.None? <==> forall i :: 0 <= i < |es| ==> es[i].key != key
    ensures r.Some? ==> r.value < |es| && es[r.value].key == key
    ensures r.Some? ==> forall i :: 0 <= i < r.value ==> es[i].key != key
  {
    if |es| == 0 then None
    else if es[0].key == key then Some(0)
    else
      assert forall i :: 1 <= i < |es| ==> es[i] == es[1..][i - 1];
      match FirstIndex(es[1..], key)
      case None => None
      case Some(i) => Some(i + 1)
  }

  /** The value of the first entry whose key is `key`, null when there is none. */
  function Lookup<A(==), B>(es: seq<Entry<A, B>>, key: Option<A>): Option<B>
  {
    match FirstIndex(es, key)
    case None => None
    case Some(i) => es[i].value
  }

  /** The entries with the first one keyed `key` taken out. */
  function RemoveFirst<A(==), B>(es: seq<Entry<A, B>>, key: Option<A>): seq<Entry<A, B>>
  {
    match FirstIndex(es, key)
    case None => es
    case Some(i) => es[..i] + es[i + 1..]
  }

  /** `containsIt`: whether the iteration yields an entry keyed `key`. */
  method ContainsIt<A(==), B>(key: Option<A>, es: seq<Entry<A, B>>) returns (r: bool)
    ensures r <==> exists i :: 0 <= i < |es| && es[i].key == key
  {
    var i := 0;
    while i < |es|
      invariant 0 <= i <= |es|
      invariant forall j :: 0 <= j < i ==> es[j].key != key
    {
      if es[i].key == key {
        return true;
      }
      i := i + 1;
    }
    return false;
  }

  /** `getIt`: the value of the first entry keyed `key`, else null. */
  method GetIt<A(==), B>(key: Option<A>, es: seq<Entry<A, B>>) returns (r: Option<B>)
    ensures r == Lookup(es, key)
  {
    var i := 0;
    while i < |es|
      invariant 0 <= i <= |es|
      invariant forall j :: 0 <= j < i ==> es[j].key != key
    {
      if es[i].key == key {
        FirstIndexAt(es, key, i);
        return es[i].value;
      }
      i := i + 1;
    }
    return None;
  }

  /** An entry keyed `key` with no earlier one is the first. */
  lemma FirstIndexAt<A, B>(es: seq<Entry<A, B>>, key: Option<A>, i: nat)
    requires i < |es| && es[i].key == key
    requires forall j :: 0 <= j < i ==> es[j].key != key
    ensures FirstIndex(es, key) == Some(i)
  {
  }

  /**
   * `removeIt`: finds the first entry keyed `key` and removes it through the
   * iterator. The answer is null (`None`) when nothing matched, otherwise
   * `Optional.ofNullable` of the removed value (`Some(value)`).
   */
  method RemoveIt<A(==), B>(key: Option<A>, es: seq<Entry<A, B>>) returns (r: Option<Option<B>>, rest: seq<Entry<A, B>>)
    ensures r.None? <==> forall i :: 0 <= i < |es| ==> es[i].key != key
    ensures r.Some? ==> r.value == Lookup(es, key)
    ensures rest == RemoveFirst(es, key)
  {
    var correct: Option<nat> := None;
    var i := 0;
    while correct.None? && i < |es|
      invariant 0 <= i <= |es|
      invariant correct.None? ==> forall j :: 0 <= j < i ==> es[j].key != key
      invariant correct.Some? ==> correct.value < i && FirstIndex(es, key) == correct
    {
      if es[i].key == key {
        FirstIndexAt(es, key, i);
        correct := Some(i);
      }
      i := i + 1;
    }
    if correct.None? {
      return None, es;
    }
    var at := correct.value;
    return Some(es[at].value), es[..at] + es[at + 1..];
  }

  /** Taking out the entry keyed `key` keeps every other entry, and only those, when keys are unique. */
  lemma RemoveFirstMembers<A, B>(es: seq<Entry<A, B>>, key: Option<A>)
    requires DistinctKeys(es)
    ensures DistinctKeys(RemoveFirst(es, key))
    ensures forall e :: e in RemoveFirst(es, key) <==> e in es && e.key != key
  {
    match FirstIndex(es, key)
    case None =>
    case Some(i) =>
      var rest := es[..i] + es[i + 1..];
      assert forall j :: 0 <= j < |rest| ==> rest[j] == if j < i then es[j] else es[j + 1];
      forall e | e in rest
        ensures e in es && e.key != key
      {
        var j :| 0 <= j < |rest| && rest[j] == e;
      }
      forall e | e in es && e.key != key
        ensures e in rest
      {
        var j :| 0 <= j < |es| && es[j] == e;
        assert j != i;
        if j < i {
          assert rest[j] == e;
        } else {
          assert rest[j - 1] == e;
        }
      }
  }

  /**
   * `remove` keeps the two entry sets mirrored: dropping the key's entry
   * and then the inverse entry keyed by its value drops the same pair from
   * both sides.
   */
  lemma {:induction false} RemoveKeepsMirror<K, V>(es: seq<Entry<K, V>>, ies: seq<Entry<V, K>>, key: Option<K>)
    requires Mirrored(es, ies)
    requires FirstIndex(es, key).Some?
    ensures Mirrored(RemoveFirst(es, key), RemoveFirst(ies, Lookup(es, key)))
  {
    var v := Lookup(es, key);
    RemoveFirstMembers(es, key);
    RemoveFirstMembers(ies, v);
    RemovedPairsMatch(es, ies, key);
    RemovedPairsMatchBack(es, ies, key);
  }

  /** A sequence without repeated elements has as many distinct elements as positions. */
  lemma {:induction false} NoRepeatsCount<T>(s: seq<T>)
    requires forall i, j :: 0 <= i < j < |s| ==> s[i] != s[j]
    ensures |set x | x in s| == |s|
  {
    if |s| > 0 {
      var init := s[..|s| - 1];
      NoRepeatsCount(init);
      assert (set x | x in s) == (set x | x in init) + {s[|s| - 1]};
      assert s[|s| - 1] !in init;
    }
  }

  /** Mirrored entry sets have the same size, so a map and its inverse answer the same `size()`. */
  lemma MirroredSameSize<K, V>(es: seq<Entry<K, V>>, ies: seq<Entry<V, K>>)
    ensures Mirrored(es, ies) ==> |es| == |ies|
  {
    if Mirrored(es, ies) {
      var back := seq(|ies|, i requires 0 <= i < |ies| => Swap(ies[i]));
      forall i, j | 0 <= i < j < |back|
        ensures back[i] != back[j]
      {
        assert ies[i].key != ies[j].key;
      }
      forall i, j | 0 <= i < j < |es|
        ensures es[i] != es[j]
      {
        assert es[i].key != es[j].key;
      }
      NoRepeatsCount(back);
      NoRepeatsCount(es);
      forall x | x in es
        ensures x in back
      {
        var i :| 0 <= i < |ies| && ies[i] == Swap(x);
        assert back[i] == x;
      }
      assert (set x | x in back) == (set x | x in es);
    }
  }

  lemma RemovedPairsMatch<K, V>(es: seq<Entry<K, V>>, ies: seq<Entry<V, K>>, key: Option<K>)
    requires Mirrored(es, ies)
    requires FirstIndex(es, key).Some?
    ensures forall e :: e in es && e.key != key ==> Swap(e) in ies && Swap(e).key != Lookup(es, key)
  {
    var i := FirstIndex(es, key).value;
    assert Swap(es[i]) in ies;
    var b :| 0 <= b < |ies| && ies[b] == Swap(es[i]);
    forall e | e in es && e.key != key
      ensures Swap(e) in ies && Swap(e).key != Lookup(es, key)
    {
      var a :| 0 <= a < |ies| && ies[a] == Swap(e);
      assert ies[a].value == e.key != key == ies[b].value;
      assert ies[a].key != ies[b].key;
    }
  }

  lemma RemovedPairsMatchBack<K, V>(es: seq<Entry<K, V>>, ies: seq<Entry<V, K>>, key: Option<K>)
    requires Mirrored(es, ies)
    requires FirstIndex(es, key).Some?
    ensures forall e :: e in ies && e.key != Lookup(es, key) ==> Swap(e) in es && Swap(e).key != key
  {
    var i := FirstIndex(es, key).value;
    forall e | e in ies && e.key != Lookup(es, key)
      ensures Swap(e) in es && Swap(e).key != key
    {
      var a :| 0 <= a < |es| && es[a] == Swap(e);
      assert es[a].value == e.key != es[i].value;
      assert es[a].key != es[i].key;
    }
  }

  /** The whole table as a map: what `Map.get` and `containsKey` answer. */
  function AsMap<A(==), B>(es: seq<Entry<A, B>>): (m: map<Option<A>, Option<B>>)
    ensures forall e :: e in es ==> e.key in m
    ensures forall k :: k in m ==> exists e :: e in es && e.key == k
  {
    if |es| == 0 then map[]
    else AsMap(es[..|es| - 1])[es[|es| - 1].key := es[|es| - 1].value]
  }

  /** Every entry of `es` is matched by `m` (a null value needs the key present). */
  ghost predicate SameMappings<K, V>(es: seq<Entry<K, V>>, m: map<Option<K>, Option<V>>)
  {
    forall i :: 0 <= i < |es| ==> es[i].key in m && m[es[i].key] == es[i].value
  }

  /** What `equals` may be handed: this very map, something that is not a map, or another map. */
  datatype Other<K(==), V> = ThisMap | NotAMap | AnotherMap(mappings: map<Option<K>, Option<V>>)

  /** Java's `int` addition: the sum taken modulo 2^32 into [-2^31, 2^31). */
  function Wrap(x: int): (r: int)
    ensures -0x8000_0000 <= r < 0x8000_0000
    ensures (r - x) % 0x1_0000_0000 == 0
  {
    (x + 0x8000_0000) % 0x1_0000_0000 - 0x8000_0000
  }

  lemma WrapAdd(a: int, b: int)
    ensures Wrap(Wrap(a) + b) == Wrap(a + b)
  {
    var w := Wrap(a);
    assert (w - a) % 0x1_0000_0000 == 0;
    var q := (w - a) / 0x1_0000_0000;
    assert w + b + 0x8000_0000 == a + b + 0x8000_0000 + q * 0x1_0000_0000;
  }

  /** The sum of the entries' hash codes, without wrap-around. */
  function Sum<A, B>(es: seq<Entry<A, B>>, hash: Entry<A, B> -> int): int
  {
    if |es| == 0 then 0 else Sum(es[..|es| - 1], hash) + hash(es[|es| - 1])
  }

  lemma {:induction false} SumRemoveAt<A, B>(es: seq<Entry<A, B>>, hash: Entry<A, B> -> int, i: nat)
    requires i < |es|
    ensures Sum(es, hash) == Sum(es[..i] + es[i + 1..], hash) + hash(es[i])
    decreases |es|
  {
    var n := |es| - 1;
    if i < n {
      var front := es[..n];
      SumRemoveAt(front, hash, i);
      assert front[..i] + front[i + 1..] == (es[..i] + es[i + 1..])[..n - 1];
      assert (es[..i] + es[i + 1..])[n - 1] == es[n];
    } else {
      assert es[..i] + es[i + 1..] == es[..n];
    }
  }

  /** The sum does not depend on the order of the entries. */
  lemma {:induction false} SumPermutation<A, B>(a: seq<Entry<A, B>>, b: seq<Entry<A, B>>, hash: Entry<A, B> -> int)
    requires multiset(a) == multiset(b)
    ensures Sum(a, hash) == Sum(b, hash)
    decreases |a|
  {
    if |a| == 0 {
      assert |b| == |multiset(b)| == 0;
    } else {
      var n := |a| - 1;
      var x := a[n];
      assert x in multiset(b);
      var j :| 0 <= j < |b| && b[j] == x;
      var b' := b[..j] + b[j + 1..];
      assert b == b[..j] + [x] + b[j + 1..];
      assert a == a[..n] + [x];
      MultisetWithout(a, n);
      MultisetWithout(b, j);
      assert a[..n] == a[..n] + a[n + 1..];
      SumPermutation(a[..n], b', hash);
      SumRemoveAt(b, hash, j);
    }
  }

  lemma MultisetWithout<T>(s: seq<T>, j: nat)
    requires j < |s|
    ensures multiset(s[..j] + s[j + 1..]) == multiset(s) - multiset{s[j]}
  {
    assert s == s[..j] + [s[j]] + s[j + 1..];
  }

  /** The key set view: `toSet` over the entry set. */
  class KeySetView<K(==), V(==)> {
    const owner: AbstractBidirectionalMap<K, V>

    constructor (owner: AbstractBidirectionalMap<K, V>)
      ensures this.owner == owner
    {
      this.owner := owner;
    }

    /** `size` delegates to the map. */
    function Size(): (r: nat)
      reads owner
      ensures r == |owner.entries|
    {
      owner.Size()
    }

    /** `contains` delegates to `containsKey`. */
    method Contains(k: Option<K>) returns (r: bool)
      ensures r <==> exists i :: 0 <= i < |owner.entries| && owner.entries[i].key == k
    {
      r := owner.ContainsKey(k);
    }

    /** `remove`, `removeAll` and `clear` are refused: the view is read-only. */
    method Remove(o: Option<K>) returns (r: Outcome<bool>)
      ensures r == Threw(UnsupportedOperation)
    {
      return Threw(UnsupportedOperation);
    }

    method RemoveAll(c: seq<Option<K>>) returns (r: Outcome<bool>)
      ensures r == Threw(UnsupportedOperation)
    {
      return Threw(UnsupportedOperation);
    }

    method Clear() returns (r: Option<Exception>)
      ensures r == Some(UnsupportedOperation)
    {
      return Some(UnsupportedOperation);
    }
  }

  /** The values view: `toSet` over the inverse entry set. */
  class ValuesView<K(==), V(==)> {
    const owner: AbstractBidirectionalMap<K, V>

    constructor (owner: AbstractBidirectionalMap<K, V>)
      ensures this.owner == owner
    {
      this.owner := owner;
    }

    function Size(): (r: nat)
      reads owner
      ensures r == |owner.entries|
    {
      owner.Size()
    }

    /** `contains` delegates to `containsValue`. */
    method Contains(v: Option<V>) returns (r: bool)
      ensures r <==> exists i :: 0 <= i < |owner.inverseEntries| && owner.inverseEntries[i].key == v
    {
      r := owner.ContainsValue(v);
    }

    method Remove(o: Option<V>) returns (r: Outcome<bool>)
      ensures r == Threw(UnsupportedOperation)
    {
      return Threw(UnsupportedOperation);
    }

    method RemoveAll(c: seq<Option<V>>) returns (r: Outcome<bool>)
      ensures r == Threw(UnsupportedOperation)
    {
      return Threw(UnsupportedOperation);
    }

    method Clear() returns (r: Option<Exception>)
      ensures r == Some(UnsupportedOperation)
    {
      return Some(UnsupportedOperation);
    }
  }

  class AbstractBidirectionalMap<K(==), V(==)> {
    /** The subclass's `entrySet()` and `inverseEntrySet()`, in iteration order. */
    var entries: seq<Entry<K, V>>
    var inverseEntries: seq<Entry<V, K>>
    /** The memoised views; null until first requested. */
    var keySet: KeySetView?<K, V>
    var values: ValuesView?<K, V>

    constructor (entries: seq<Entry<K, V>>, inverseEntries: seq<Entry<V, K>>)
      ensures this.entries == entries && this.inverseEntries == inverseEntries
      ensures keySet == null && values == null
    {
      this.entries := entries;
      this.inverseEntries := inverseEntries;
      keySet := null;
      values := null;
    }

    /** `size`: the entry set's size, which on mirrored entry sets is the inverse entry set's too. */
    function Size(): (r: nat)
      reads this
      ensures Mirrored(entries, inverseEntries) ==> r == |inverseEntries|
    {
      MirroredSameSize(entries, inverseEntries);
      |entries|
    }

    function IsEmpty(): (r: bool)
      reads this
      ensures r <==> entries == []
    {
      Size() == 0
    }

    method ContainsKey(key: Option<K>) returns (r: bool)
      ensures r <==> exists i :: 0 <= i < |entries| && entries[i].key == key
    {
      r := ContainsIt(key, entries);
    }

    method ContainsValue(value: Option<V>) returns (r: bool)
      ensures r <==> exists i :: 0 <= i < |inverseEntries| && inverseEntries[i].key == value
    {
      r := ContainsIt(value, inverseEntries);
    }

    method Get(key: Option<K>) returns (r: Option<V>)
      ensures r == Lookup(entries, key)
    {
      r := GetIt(key, entries);
    }

    method GetKey(value: Option<V>) returns (r: Option<K>)
      ensures r == Lookup(inverseEntries, value)
    {
      r := GetIt(value, inverseEntries);
    }

    /** `put` is not supported by the skeleton. */
    method Put(key: Option<K>, value: Option<V>) returns (r: Outcome<Option<V>>)
      ensures r == Threw(UnsupportedOperation)
    {
      return Threw(UnsupportedOperation);
    }

    /**
     * `putAll`: `put` for each entry of `m`, so the first one already fails;
     * a null argument fails on `m.entrySet()`. The map is never changed.
     */
    method PutAll(m: Option<seq<Entry<K, V>>>) returns (r: Option<Exception>)
      ensures m.None? ==> r == Some(NullPointer)
      ensures m.Some? && m.value == [] ==> r.None?
      ensures m.Some? && m.value != [] ==> r == Some(UnsupportedOperation)
    {
      if m.None? {
        return Some(NullPointer);
      }
      if m.value == [] {
        return None;
      }
      var first := Put(m.value[0].key, m.value[0].value);
      return Some(first.error);
    }

    /**
     * `remove`: takes out the key's entry and then the inverse entry keyed
     * by the removed value; answers the removed value, or null.
     */
    method Remove(key: Option<K>) returns (r: Option<V>)
      modifies this
      ensures r == Lookup(old(entries), key)
      ensures entries == RemoveFirst(old(entries), key)
      ensures FirstIndex(old(entries), key).None? ==> inverseEntries == old(inverseEntries)
      ensures FirstIndex(old(entries), key).Some? ==>
        inverseEntries == RemoveFirst(old(inverseEntries), Lookup(old(entries), key))
      ensures Mirrored(old(entries), old(inverseEntries)) ==> Mirrored(entries, inverseEntries)
      ensures keySet == old(keySet) && values == old(values)
    {
      var found, rest := RemoveIt(key, entries);
      entries := rest;
      if found.Some? {
        var _, irest := RemoveIt(found.value, inverseEntries);
        inverseEntries := irest;
        if Mirrored(old(entries), old(inverseEntries)) {
          RemoveKeepsMirror(old(entries), old(inverseEntries), key);
        }
        return found.value;
      }
      return None;
    }

    /** `clear`: empties both entry sets. */
    method Clear()
      modifies this
      ensures entries == [] && inverseEntries == []
      ensures Mirrored(entries, inverseEntries)
      ensures keySet == old(keySet) && values == old(values)
    {
      entries := [];
      inverseEntries := [];
    }

    /** `keySet`: the view is created on the first call and the same one returned afterwards. */
    method KeySet() returns (r: KeySetView<K, V>)
      modifies this
      ensures old(keySet) != null ==> r == old(keySet)
      ensures old(keySet) == null ==> fresh(r) && r.owner == this
      ensures keySet == r
      ensures entries == old(entries) && inverseEntries == old(inverseEntries) && values == old(values)
    {
      if keySet == null {
        keySet := new KeySetView(this);
      }
      r := keySet;
    }

    /** `values`: memoised like the key set. */
    method Values() returns (r: ValuesView<K, V>)
      modifies this
      ensures old(values) != null ==> r == old(values)
      ensures old(values) == null ==> fresh(r) && r.owner == this
      ensures values == r
      ensures entries == old(entries) && inverseEntries == old(inverseEntries) && keySet == old(keySet)
    {
      if values == null {
        values := new ValuesView(this);
      }
      r := values;
    }

    /**
     * `equals`: the same object, or a map of the same size that maps every
     * key of this one to the same value (a null value must be present, not
     * just absent).
     */
    method Equals(o: Other<K, V>) returns (r: bool)
      ensures r <==> o.ThisMap? || (o.AnotherMap? && |o.mappings| == |entries| && SameMappings(entries, o.mappings))
    {
      match o
      case ThisMap => return true;
      case NotAMap => return false;
      case AnotherMap(m) =>
        if |m| != |entries| {
          return false;
        }
        var i := 0;
        while i < |entries|
          invariant 0 <= i <= |entries|
          invariant forall j :: 0 <= j < i ==> entries[j].key in m && m[entries[j].key] == entries[j].value
        {
          var e := entries[i];
          if e.value.None? {
            if !(e.key in m && m[e.key].None?) {
              return false;
            }
          } else {
            if !(e.key in m && e.value == m[e.key]) {
              return false;
            }
          }
          i := i + 1;
        }
        return true;
    }

    /** `hashCode`: the entries' hash codes summed with Java's wrapping `int` addition. */
    method HashCode(hash: Entry<K, V> -> int) returns (r: int)
      ensures r == Wrap(Sum(entries, hash))
    {
      r := 0;
      var i := 0;
      while i < |entries|
        invariant 0 <= i <= |entries|
        invariant r == Wrap(Sum(entries[..i], hash))
      {
        assert entries[..i + 1][..i] == entries[..i];
        WrapAdd(Sum(entries[..i], hash), hash(entries[i]));
        r := Wrap(r + hash(entries[i]));
        i := i + 1;
      }
      assert entries[..i] == entries;
    }
  }

  /** Two maps that `equals` accepts hold the same mappings, when this one's keys are unique. */
  lemma {:induction false} EqualsMeansSameMap<K, V>(es: seq<Entry<K, V>>, m: map<Option<K>, Option<V>>)
    requires DistinctKeys(es) && |m| == |es| && SameMappings(es, m)
    ensures AsMap(es) == m
  {
    AsMapOfDistinct(es);
    var a := AsMap(es);
    assert a.Keys <= m.Keys;
    assert |a.Keys| == |m.Keys|;
    SubsetOfSameSize(a.Keys, m.Keys);
    forall k | k in a
      ensures a[k] == m[k]
    {
      var e :| e in es && e.key == k;
      var i :| 0 <= i < |es| && es[i] == e;
      AsMapAt(es, i);
    }
  }

  /** With unique keys the map has one key per entry and maps each entry's key to its value. */
  lemma {:induction false} AsMapOfDistinct<A, B>(es: seq<Entry<A, B>>)
    requires DistinctKeys(es)
    ensures |AsMap(es)| == |es|
  {
    if |es| > 0 {
      var n := |es| - 1;
      AsMapOfDistinct(es[..n]);
      forall e | e in es[..n]
        ensures e.key != es[n].key
      {
        var j :| 0 <= j < n && es[..n][j] == e;
      }
      assert es[n].key !in AsMap(es[..n]);
    }
  }

  lemma {:induction false} AsMapAt<A, B>(es: seq<Entry<A, B>>, i: nat)
    requires DistinctKeys(es) && i < |es|
    ensures AsMap(es)[es[i].key] == es[i].value
  {
    var n := |es| - 1;
    if i < n {
      AsMapAt(es[..n], i);
    }
  }

  lemma SubsetOfSameSize<T>(a: set<T>, b: set<T>)
    requires a <= b && |a| == |b|
    ensures a == b
  {
    assert |b - a| == |b| - |a| == 0;
    assert b - a == {};
  }

  /** `hashCode` does not depend on the iteration order of the entry set. */
  lemma HashCodeOrderFree<A, B>(a: seq<Entry<A, B>>, b: seq<Entry<A, B>>, hash: Entry<A, B> -> int)
    requires multiset(a) == multiset(b)
    ensures Wrap(Sum(a, hash)) == Wrap(Sum(b, hash))
  {
    SumPermutation(a, b, hash);
  }
}
