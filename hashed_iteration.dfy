/**
 * The fail-fast iterators and the range-splitting spliterators of
 * `HashedBidirectionalMap`, and the `forEach` of its set views. All of
 * them walk one `Nodes` table bucket by bucket, each bucket along its
 * `next` chain, and compare the sum of both tables' modification counts
 * with the one they started from.
 *
 * A node's `next` link is followed here as the part of its bucket's
 * chain after it (`rest`), read when the walk enters the bucket.
 */
module HashedIteration {
  import opened Wrappers
  import opened HashedNodes
  import opened BidirectionalMap
  import opened BijectedHashMap

  /* ---------------- Walking a table ---------------- */

  /** The nodes of a table in iteration order: bucket by bucket, each along its chain. */
  function Flat<K, V>(bins: seq<Bin<K, V>>): (r: seq<Node<K, V>>)
    ensures |bins| == 0 ==> r == []
  {
    if |bins| == 0 then [] else bins[0].chain + Flat(bins[1..])
  }

  /** Walking a bucket range is walking its first bucket, then the rest. */
  lemma FlatStep<K, V>(bins: seq<Bin<K, V>>, i: int, j: int)
    requires 0 <= i < j <= |bins|
    ensures Flat(bins[i..j]) == bins[i].chain + Flat(bins[i + 1..j])
  {
    assert bins[i..j][1..] == bins[i + 1..j];
  }

  /** Walking two adjacent bucket ranges is walking their union. */
  lemma {:induction false} FlatSplit<K, V>(bins: seq<Bin<K, V>>, lo: int, mid: int, hi: int)
    requires 0 <= lo <= mid <= hi <= |bins|
    ensures Flat(bins[lo..hi]) == Flat(bins[lo..mid]) + Flat(bins[mid..hi])
    decreases mid - lo
  {
    if lo < mid {
      FlatStep(bins, lo, hi);
      FlatStep(bins, lo, mid);
      FlatSplit(bins, lo + 1, mid, hi);
    } else {
      assert bins[lo..mid] == [];
    }
  }

  /** Empty buckets walk to nothing. */
  lemma {:induction false} FlatEmpty<K, V>(n: nat)
    ensures Flat(EmptyBins<K, V>(n)) == []
  {
    if n > 0 {
      assert EmptyBins<K, V>(n)[1..] == EmptyBins<K, V>(n - 1);
      FlatEmpty<K, V>(n - 1);
    }
  }

  /** Nodes with distinct keys, each one of the mappings of `contents`, all in buckets before `i` of a table of length `n`. */
  ghost predicate ListedBefore<K, V>(h: Option<K> -> int, f: seq<Node<K, V>>, contents: map<Option<K>, Option<V>>, i: int, n: int)
    requires n > 0
  {
    DistinctKeys(f)
    && forall t :: 0 <= t < |f| ==> Index(h(f[t].key), n) < i && f[t].key in contents && contents[f[t].key] == f[t].value
  }

  /** The chain of bucket `j` lists mappings of bucket `j` only. */
  lemma BucketListed<K, V>(h: Option<K> -> int, bins: seq<Bin<K, V>>, contents: map<Option<K>, Option<V>>, j: int)
    requires TableHolds(h, bins, contents) && 0 <= j < |bins|
    ensures ListedBefore(h, bins[j].chain, contents, j + 1, |bins|)
    ensures forall t :: 0 <= t < |bins[j].chain| ==> Index(h(bins[j].chain[t].key), |bins|) == j
  {
    var c := bins[j].chain;
    assert BinPlaced(h, bins[j], j, |bins|);
    forall t | 0 <= t < |c|
      ensures c[t].key in contents && contents[c[t].key] == c[t].value
    {
      NodeMapped(h, bins, contents, j, t);
    }
  }

  /** Appending bucket `i`'s chain to a walk over the buckets before it keeps the keys distinct. */
  lemma JoinBucket<K, V>(h: Option<K> -> int, p: seq<Node<K, V>>, c: seq<Node<K, V>>, contents: map<Option<K>, Option<V>>, i: int, n: int)
    requires n > 0 && ListedBefore(h, p, contents, i, n) && ListedBefore(h, c, contents, i + 1, n)
    requires forall t :: 0 <= t < |c| ==> Index(h(c[t].key), n) == i
    ensures ListedBefore(h, p + c, contents, i + 1, n)
    ensures KeysOf(p + c) == KeysOf(p) + KeysOf(c)
  {
    var f := p + c;
    forall x, y | 0 <= x < y < |f|
      ensures f[x].key != f[y].key
    {
      if y >= |p| && x < |p| {
        assert f[y] == c[y - |p|];
      } else if x >= |p| {
        assert f[x] == c[x - |p|] && f[y] == c[y - |p|];
      }
    }
    forall t | 0 <= t < |f|
      ensures Index(h(f[t].key), n) < i + 1 && f[t].key in contents && contents[f[t].key] == f[t].value
    {
      if t >= |p| {
        assert f[t] == c[t - |p|];
      }
    }
  }

  /** The walk over the first `i` buckets of a table that holds `contents` lists them all, each once. */
  lemma {:induction false} FlatPrefix<K, V>(h: Option<K> -> int, bins: seq<Bin<K, V>>, contents: map<Option<K>, Option<V>>, i: int)
    requires TableHolds(h, bins, contents) && 0 <= i <= |bins|
    ensures ListedBefore(h, Flat(bins[0..i]), contents, i, |bins|)
    ensures forall j, u :: 0 <= j < i && 0 <= u < |bins[j].chain| ==> bins[j].chain[u].key in KeysOf(Flat(bins[0..i]))
  {
    if i > 0 {
      FlatPrefix(h, bins, contents, i - 1);
      FlatSplit(bins, 0, i - 1, i);
      FlatStep(bins, i - 1, i);
      var p, c := Flat(bins[0..i - 1]), bins[i - 1].chain;
      assert Flat(bins[0..i]) == p + c;
      BucketListed(h, bins, contents, i - 1);
      JoinBucket(h, p, c, contents, i - 1, |bins|);
      forall j, u | 0 <= j < i && 0 <= u < |bins[j].chain|
        ensures bins[j].chain[u].key in KeysOf(p + c)
      {
        if j == i - 1 {
          assert KeysOf(c)[u] == c[u].key;
        }
      }
    }
  }

  /**
   * Walking a table that holds `contents` meets every mapping exactly once:
   * distinct keys, every node one of the mappings, every mapping met.
   */
  lemma FlatListsContents<K, V>(h: Option<K> -> int, bins: seq<Bin<K, V>>, contents: map<Option<K>, Option<V>>)
    requires TableHolds(h, bins, contents)
    ensures DistinctKeys(Flat(bins))
    ensures forall t :: 0 <= t < |Flat(bins)| ==> Flat(bins)[t].key in contents && contents[Flat(bins)[t].key] == Flat(bins)[t].value
    ensures forall k :: k in contents ==> k in KeysOf(Flat(bins))
  {
    FlatPrefix(h, bins, contents, |bins|);
    assert bins[0..|bins|] == bins;
    assert ListedBefore(h, Flat(bins), contents, |bins|, |bins|);
    forall k | k in contents
      ensures k in KeysOf(Flat(bins))
    {
      var c := bins[Index(h(k), |bins|)].chain;
      var u := InChain(c, k);
    }
  }

  /** `s` is what follows some node of chain `c`: a suffix of it. */
  predicate IsTail<T(==)>(s: seq<T>, c: seq<T>)
  {
    |s| <= |c| && c[|c| - |s|..] == s
  }

  /** The suffix after the first node of a suffix is a suffix too. */
  lemma TailOfTail<T>(n: T, s: seq<T>, c: seq<T>)
    requires IsTail([n] + s, c)
    ensures IsTail(s, c)
  {
    assert c[|c| - |s|..] == c[|c| - |s| - 1..][1..];
  }

  /** In a chain with distinct keys, the node heading a suffix is the only one there with its key. */
  lemma HeadKeyLeaves<K, V>(n: Node<K, V>, s: seq<Node<K, V>>, c: seq<Node<K, V>>)
    requires IsTail([n] + s, c) && DistinctKeys(c)
    ensures n.key !in KeysOf(s)
  {
    var d := |c| - |s| - 1;
    forall u | 0 <= u < |s|
      ensures s[u].key != n.key
    {
      assert s[u] == c[d + 1 + u] && n == c[d];
    }
  }

  /**
   * Where a walk stands in a table: `next` heads a suffix `[next] + rest`
   * of bucket `index - 1`, or there is nothing left; the node returned
   * last, `current`, lies in a bucket before `index`, and when it shares
   * `next`'s bucket it is not among the nodes still to come.
   */
  ghost predicate Positioned<K, V>(h: Option<K> -> int, bins: seq<Bin<K, V>>, next: Option<Node<K, V>>, rest: seq<Node<K, V>>,
                                   current: Option<Node<K, V>>, index: int)
  {
    && 0 <= index <= |bins|
    && (next.Some? ==> 0 < index && IsTail([next.value] + rest, bins[index - 1].chain))
    && (next.None? ==> rest == [] && Flat(bins[index..|bins|]) == [])
    && (current.Some? ==>
          |bins| > 0 && Index(h(current.value.key), |bins|) < index
          && (next.Some? && Index(h(current.value.key), |bins|) == index - 1 ==> current.value.key !in KeysOf([next.value] + rest)))
  }

  /** The nodes a walk positioned at `next`/`rest` and bucket `index` has still to visit, up to bucket `hi`. */
  function Ahead<K, V>(next: Option<Node<K, V>>, rest: seq<Node<K, V>>, bins: seq<Bin<K, V>>, index: int, hi: int): seq<Node<K, V>>
    requires 0 <= index <= hi <= |bins|
  {
    (if next.Some? then [next.value] + rest else []) + Flat(bins[index..hi])
  }

  /** Taking the next node of the current bucket leaves the rest of the walk. */
  lemma StepInBucket<K, V>(h: Option<K> -> int, bins: seq<Bin<K, V>>, n: Node<K, V>, rest: seq<Node<K, V>>,
                           current: Option<Node<K, V>>, index: int)
    requires Positioned(h, bins, Some(n), rest, current, index) && |rest| > 0
    requires forall i :: 0 <= i < |bins| ==> BinPlaced(h, bins[i], i, |bins|)
    ensures Positioned(h, bins, Some(rest[0]), rest[1..], Some(n), index)
    ensures Ahead(Some(n), rest, bins, index, |bins|)[1..] == Ahead(Some(rest[0]), rest[1..], bins, index, |bins|)
  {
    var c := bins[index - 1].chain;
    assert BinPlaced(h, bins[index - 1], index - 1, |bins|);
    assert rest == [rest[0]] + rest[1..];
    TailOfTail(n, rest, c);
    HeadKeyLeaves(n, rest, c);
    assert n == c[|c| - |rest| - 1];
  }

  /** Taking the last node of a bucket and skipping to the next non-empty one leaves the rest of the walk. */
  lemma StepOut<K, V>(h: Option<K> -> int, bins: seq<Bin<K, V>>, n: Node<K, V>, current: Option<Node<K, V>>, index: int,
                      index': int, next': Option<Node<K, V>>, rest': seq<Node<K, V>>)
    requires Positioned(h, bins, Some(n), [], current, index)
    requires forall i :: 0 <= i < |bins| ==> BinPlaced(h, bins[i], i, |bins|)
    requires index <= index' <= |bins|
    requires next'.Some? ==> index < index' && IsTail([next'.value] + rest', bins[index' - 1].chain)
    requires next'.None? ==> rest' == [] && index' == |bins|
    requires Ahead(next', rest', bins, index', |bins|) == Flat(bins[index..|bins|])
    ensures Positioned(h, bins, next', rest', Some(n), index')
    ensures Ahead(Some(n), [], bins, index, |bins|)[1..] == Ahead(next', rest', bins, index', |bins|)
  {
    TakenPlaced(h, bins, n, [], index);
  }

  /** The node taken last lies in the bucket the walk has just left. */
  lemma TakenPlaced<K, V>(h: Option<K> -> int, bins: seq<Bin<K, V>>, n: Node<K, V>, rest: seq<Node<K, V>>, index: int)
    requires 0 < index <= |bins| && IsTail([n] + rest, bins[index - 1].chain)
    requires BinPlaced(h, bins[index - 1], index - 1, |bins|)
    ensures Index(h(n.key), |bins|) == index - 1
  {
    var c := bins[index - 1].chain;
    assert n == c[|c| - |rest| - 1];
  }

  /** `bins'` is `bins` with the node of `key` cut out of its chain (as `Nodes.Remove` leaves it). */
  ghost predicate Unlinked<K, V>(h: Option<K> -> int, bins: seq<Bin<K, V>>, bins': seq<Bin<K, V>>, key: Option<K>)
  {
    |bins| > 0 && |bins'| == |bins|
    && var i := Index(h(key), |bins|);
       bins' == bins[i := bins'[i]] && bins'[i].chain == Without(bins[i].chain, key)
  }

  /**
   * Unlinking a node of a bucket before `index` (but not one still to
   * come) keeps the walk where it was: it has the same nodes ahead.
   */
  lemma UnlinkBehind<K, V>(h: Option<K> -> int, bins: seq<Bin<K, V>>, bins': seq<Bin<K, V>>, next: Option<Node<K, V>>,
                           rest: seq<Node<K, V>>, current: Node<K, V>, index: int)
    requires Positioned(h, bins, next, rest, Some(current), index)
    requires Unlinked(h, bins, bins', current.key) || bins' == bins
    ensures Positioned(h, bins', next, rest, None, index)
    ensures Ahead(next, rest, bins', index, |bins'|) == Ahead(next, rest, bins, index, |bins|)
  {
    if bins' == bins {
      return;
    }
    var i := Index(h(current.key), |bins|);
    assert bins'[index..|bins'|] == bins[index..|bins|];
    if next.Some? && i == index - 1 {
      var c := bins[i].chain;
      var s := [next.value] + rest;
      var p := c[..|c| - |s|];
      assert c == p + s;
      forall t | 0 <= t < |s|
        ensures s[t].key != current.key
      {
        assert KeysOf(s)[t] == s[t].key;
      }
      WithoutKeepsTail(p, s, current.key);
      assert bins'[i].chain == Without(p, current.key) + s;
    }
  }

  /**
   * The `do ... while` loop of the iterator's constructor and `nextNode`,
   * and the bucket-skipping steps of a spliterator's `tryAdvance`: from
   * bucket `start` on, enter the first non-empty bucket before `hi` and
   * stand at its first node, or reach `hi`.
   */
  method Skip<K, V>(t: array<Bin<K, V>>, start: int, hi: int) returns (index: int, next: Option<Node<K, V>>, rest: seq<Node<K, V>>)
    requires 0 <= start <= hi <= t.Length
    ensures start <= index <= hi
    ensures next.Some? ==> start < index && IsTail([next.value] + rest, t[index - 1].chain)
    ensures next.None? ==> rest == [] && index == hi
    ensures Ahead(next, rest, t[..], index, hi) == Flat(t[..][start..hi])
  {
    ghost var bins := t[..];
    index, next, rest := start, None, [];
    while index < hi && next.None?
      invariant start <= index <= hi
      invariant next.None? ==> rest == [] && Flat(bins[start..hi]) == Flat(bins[index..hi])
      invariant next.Some? ==>
        start < index && IsTail([next.value] + rest, bins[index - 1].chain)
        && Flat(bins[start..hi]) == [next.value] + rest + Flat(bins[index..hi])
      decreases hi - index
    {
      var c := t[index].chain;
      FlatStep(bins, index, hi);
      if |c| > 0 {
        next, rest := Some(c[0]), c[1..];
        assert [c[0]] + c[1..] == c;
      }
      index := index + 1;
    }
  }

  /**
   * `nextNode()`'s move from node `n`: on along its bucket's chain, or,
   * at the chain's end, to the first node of the next non-empty bucket.
   */
  method Walk<K, V>(t: array<Bin<K, V>>, ghost h: Option<K> -> int, n: Node<K, V>, rest: seq<Node<K, V>>,
                    ghost current: Option<Node<K, V>>, index: int) returns (index': int, next': Option<Node<K, V>>, rest': seq<Node<K, V>>)
    requires Positioned(h, t[..], Some(n), rest, current, index)
    requires forall i :: 0 <= i < t.Length ==> BinPlaced(h, t[i], i, t.Length)
    ensures index <= index' <= t.Length
    ensures Positioned(h, t[..], next', rest', Some(n), index')
    ensures Ahead(Some(n), rest, t[..], index, t.Length)[1..] == Ahead(next', rest', t[..], index', t.Length)
  {
    ghost var bins := t[..];
    assert forall i :: 0 <= i < |bins| ==> BinPlaced(h, bins[i], i, |bins|);
    TakenPlaced(h, bins, n, rest, index);
    if |rest| > 0 {
      StepInBucket(h, bins, n, rest, current, index);
      index', next', rest' := index, Some(rest[0]), rest[1..];
    } else {
      index', next', rest' := Skip(t, index, t.Length);
      StepOut(h, bins, n, current, index, index', next', rest');
    }
  }

  /* ---------------- Iterators ---------------- */

  /**
   * `HashedIterator`: the common part of the key, value, entry and
   * inverse-entry iterators, which differ only in what `next()` makes of
   * the node and (for the inverse entries) in the roles of the tables.
   */
  class HashedIterator<K(==), V(==)> {
    const nodes: Nodes<K, V>
    const inverse: Nodes<V, K>
    var next: Option<Node<K, V>>
    var rest: seq<Node<K, V>>
    var current: Option<Node<K, V>>
    var expectedModCount: int
    var index: int

    /** Neither table was modified since the iterator last looked. */
    ghost predicate Synced()
      reads this, nodes, inverse
    {
      nodes.modCount + inverse.modCount == expectedModCount
    }

    /** Both tables are sound and apart. */
    ghost predicate Tables()
      reads nodes, nodes.table, inverse, inverse.table
    {
      && nodes.Valid() && inverse.Valid() && nodes as object != inverse
      && (nodes.table == null || inverse.table == null || nodes.table as object != inverse.table)
    }

    ghost predicate Valid()
      reads this, nodes, nodes.table, inverse, inverse.table
    {
      && Tables()
      && 0 <= index
      && (Synced() ==> Positioned(nodes.keyHash, nodes.Bins(), next, rest, current, index))
    }

    /** The nodes `next()` will still return, in order. */
    ghost function Pending(): seq<Node<K, V>>
      reads this, nodes, nodes.table
      requires 0 <= index <= |nodes.Bins()|
    {
      Ahead(next, rest, nodes.Bins(), index, |nodes.Bins()|)
    }

    /** The constructor: the walk starts at the first node of the table. */
    constructor (nodes: Nodes<K, V>, inverse: Nodes<V, K>)
      requires nodes.Valid() && inverse.Valid() && nodes as object != inverse
      requires nodes.table == null || inverse.table == null || nodes.table as object != inverse.table
      ensures this.nodes == nodes && this.inverse == inverse
      ensures Valid() && Synced() && current.None?
      ensures index <= |nodes.Bins()| && Pending() == Flat(nodes.Bins())
    {
      this.nodes := nodes;
      this.inverse := inverse;
      expectedModCount := nodes.modCount + inverse.modCount;
      current := None;
      var t := nodes.table;
      if t != null && nodes.size > 0 {
        var i, n, c := Skip(t, 0, t.Length);
        index, next, rest := i, n, c;
        assert t[..][0..t.Length] == t[..];
      } else {
        index, next, rest := 0, None, [];
        if t != null {
          assert nodes.contents == map[];
          NothingHeld(nodes.keyHash, t[..]);
          FlatEmpty<K, V>(t.Length);
          assert t[..][0..t.Length] == t[..];
        }
      }
    }

    /** `hasNext()`: some node is still to come. */
    function HasNext(): (b: bool)
      reads this, nodes, nodes.table, inverse, inverse.table
      requires Valid()
      ensures Synced() ==> index <= |nodes.Bins()| && (b <==> Pending() != [])
    {
      next.Some?
    }

    /**
     * `nextNode()`: fails fast when either table was modified behind the
     * iterator's back, fails when nothing is left, and otherwise returns
     * the first pending node and moves on.
     */
    method NextNode() returns (r: Outcome<Node<K, V>>)
      requires Valid()
      modifies this
      ensures Valid() && expectedModCount == old(expectedModCount)
      ensures !old(Synced()) ==>
        (r == Threw(ConcurrentModification) && next == old(next) && rest == old(rest) && current == old(current) && index == old(index))
      ensures old(Synced()) ==> old(index) <= |nodes.Bins()| && index <= |nodes.Bins()|
      ensures old(Synced()) && old(Pending()) == [] ==> r == Threw(NoSuchElement) && Pending() == []
      ensures old(Synced()) && old(Pending()) != [] ==>
        r == Returned(old(Pending())[0]) && current == Some(r.value) && Pending() == old(Pending())[1..]
    {
      var e := next;
      if nodes.modCount + inverse.modCount != expectedModCount {
        return Threw(ConcurrentModification);
      }
      if e.None? {
        return Threw(NoSuchElement);
      }
      r := Returned(e.value);
      Take();
    }

    /** The moving-on part of `nextNode()`: `current` becomes `next`, and the walk goes on along the chain or to the next bucket. */
    method Take()
      requires Valid() && Synced() && next.Some?
      modifies this
      ensures Valid() && Synced() && expectedModCount == old(expectedModCount)
      ensures old(index) <= |nodes.Bins()| && index <= |nodes.Bins()|
      ensures current == old(next) && Pending() == old(Pending())[1..]
    {
      ghost var bins := nodes.Bins();
      PlacedBins(nodes.keyHash, bins, nodes.contents);
      var i, n, c := Walk(nodes.table, nodes.keyHash, next.value, rest, current, index);
      current, index, next, rest := next, i, n, c;
      assert nodes.Bins() == bins && Tables();
    }

    /** `nodes.remove(key, null, false, false)`: the key leaves this table. */
    method UnmapKey(key: Option<K>) returns (r: Option<Node<K, V>>)
      requires Tables()
      modifies nodes, nodes.table
      ensures Tables() && nodes.table == old(nodes.table)
      ensures inverse.contents == old(inverse.contents) && inverse.modCount == old(inverse.modCount)
      ensures nodes.contents == old(nodes.contents) - {key}
      ensures r.Some? <==> key in old(nodes.contents)
      ensures r.Some? ==>
        r.value.value == old(nodes.contents)[key] && nodes.modCount == old(nodes.modCount) + 1
        && Unlinked(nodes.keyHash, old(nodes.Bins()), nodes.Bins(), key)
      ensures r.None? ==> nodes.Bins() == old(nodes.Bins()) && nodes.modCount == old(nodes.modCount)
    {
      r := nodes.Remove(key, None, false, false);
      if key !in old(nodes.contents) {
        assert old(nodes.contents) - {key} == old(nodes.contents);
      }
    }

    /** `inverse.remove(value, null, false, false)`: the value leaves the inverse table. */
    method UnmapValue(value: Option<V>)
      requires Tables()
      modifies inverse, inverse.table
      ensures Tables() && inverse.table == old(inverse.table)
      ensures nodes.contents == old(nodes.contents) && nodes.modCount == old(nodes.modCount) && nodes.Bins() == old(nodes.Bins())
      ensures inverse.contents == old(inverse.contents) - {value} && inverse.modCount >= old(inverse.modCount)
    {
      var _ := inverse.Remove(value, None, false, false);
      if value !in old(inverse.contents) {
        assert old(inverse.contents) - {value} == old(inverse.contents);
      }
    }

    /** Both removals of `remove()`: the key leaves this table, the value it had leaves the inverse one. */
    method Unmap(key: Option<K>)
      requires Tables()
      modifies nodes, nodes.table, inverse, inverse.table
      ensures Tables() && nodes.modCount + inverse.modCount >= old(nodes.modCount + inverse.modCount)
      ensures View(nodes.contents, inverse.contents) == RemoveKey(old(View(nodes.contents, inverse.contents)), key).0
      ensures Unlinked(nodes.keyHash, old(nodes.Bins()), nodes.Bins(), key) || nodes.Bins() == old(nodes.Bins())
    {
      var removed := UnmapKey(key);
      if removed.Some? {
        UnmapValue(removed.value.value);
      }
    }

    /**
     * `remove()`: without a current node it is an IllegalStateException;
     * after a modification behind the iterator's back it fails fast;
     * otherwise the current node leaves this table and its value leaves the
     * inverse one, and the iterator takes the new counts as its own.
     */
    method Remove() returns (r: Outcome<()>)
      requires Valid()
      modifies this, nodes, nodes.table, inverse, inverse.table
      ensures Valid()
      ensures old(current).None? ==> r == Threw(IllegalState) && View(nodes.contents, inverse.contents) == old(View(nodes.contents, inverse.contents))
      ensures old(current).Some? && !old(Synced()) ==>
        r == Threw(ConcurrentModification) && View(nodes.contents, inverse.contents) == old(View(nodes.contents, inverse.contents))
      ensures old(current).Some? && old(Synced()) ==>
        r == Returned(()) && current.None? && Synced()
        && View(nodes.contents, inverse.contents) == RemoveKey(old(View(nodes.contents, inverse.contents)), old(current).value.key).0
        && old(index) <= |old(nodes.Bins())| && index <= |nodes.Bins()| && Pending() == old(Pending())
      ensures old(View(nodes.contents, inverse.contents)).Bijective() ==> View(nodes.contents, inverse.contents).Bijective()
    {
      var p := current;
      if p.None? {
        return Threw(IllegalState);
      }
      if nodes.modCount + inverse.modCount != expectedModCount {
        return Threw(ConcurrentModification);
      }
      if old(View(nodes.contents, inverse.contents)).Bijective() {
        RemoveKeyKeepsBijection(old(View(nodes.contents, inverse.contents)), p.value.key);
      }
      Forget(p.value);
      return Returned(());
    }

    /** The synchronised part of `remove()`: forget the current node, unmap it, and take the new counts. */
    method Forget(p: Node<K, V>)
      requires Valid() && Synced() && current == Some(p)
      modifies this, nodes, nodes.table, inverse, inverse.table
      ensures Valid() && Synced() && current.None?
      ensures View(nodes.contents, inverse.contents) == RemoveKey(old(View(nodes.contents, inverse.contents)), p.key).0
      ensures old(index) <= |old(nodes.Bins())| && index <= |nodes.Bins()| && Pending() == old(Pending())
    {
      ghost var h := nodes.keyHash;
      ghost var bins := nodes.Bins();
      ghost var pending := Pending();
      Unmap(p.key);
      ghost var bins' := nodes.Bins();
      UnlinkBehind(h, bins, bins', next, rest, p, index);
      current, expectedModCount := None, nodes.modCount + inverse.modCount;
      assert nodes.Bins() == bins' && Tables();
    }
  }

  /* ---------------- Spliterators ---------------- */

  /** The node after the head of a chain suffix, if any, and what follows it. */
  function Following<T>(s: seq<T>): (r: Option<T>)
    ensures r.Some? <==> |s| > 0
  {
    if |s| > 0 then Some(s[0]) else None
  }

  function After<T>(s: seq<T>): (r: seq<T>)
    ensures |s| > 0 ==> [s[0]] + r == s
    ensures |s| == 0 ==> r == []
  {
    if |s| > 0 then s[1..] else []
  }

  /** Handing over the node a walk stands at leaves the rest of its bucket, then the buckets up to `hi`. */
  lemma HandOver<K, V>(bins: seq<Bin<K, V>>, n: Node<K, V>, rest: seq<Node<K, V>>, index: int, hi: int)
    requires 0 <= index <= hi <= |bins|
    ensures Ahead(Some(n), rest, bins, index, hi) == [n] + Ahead(Following(rest), After(rest), bins, index, hi)
  {
  }

  /** A walk between buckets enters the next one, standing at its first node if it has one. */
  lemma EnterBucket<K, V>(bins: seq<Bin<K, V>>, index: int, hi: int)
    requires 0 <= index < hi <= |bins|
    ensures Ahead(None, [], bins, index, hi) == Ahead(Following(bins[index].chain), After(bins[index].chain), bins, index + 1, hi)
  {
    FlatStep(bins, index, hi);
  }

  /**
   * One `tryAdvance` on an array: skip empty buckets up to `hi` when the
   * walk stands between buckets, then hand over the node it stands at and
   * step to the next one in the chain.
   */
  method Step<K, V>(t: array<Bin<K, V>>, hi: int, index: int, current: Option<Node<K, V>>, rest: seq<Node<K, V>>)
    returns (accepted: Option<Node<K, V>>, index': int, current': Option<Node<K, V>>, rest': seq<Node<K, V>>)
    requires 0 <= index <= hi <= t.Length && (current.None? ==> rest == []) && (current.Some? ==> 0 < index)
    ensures index <= index' <= hi && (current'.None? ==> rest' == []) && (current'.Some? ==> 0 < index')
    ensures var before := Ahead(current, rest, t[..], index, hi);
      && (before == [] ==> accepted.None? && Ahead(current', rest', t[..], index', hi) == [])
      && (before != [] ==> accepted == Some(before[0]) && Ahead(current', rest', t[..], index', hi) == before[1..])
  {
    index', current', rest' := index, current, rest;
    if current.None? {
      index', current', rest' := Skip(t, index, hi);
      assert t[..][index..hi] == t[..][index..][..hi - index];
    }
    accepted := current';
    if current'.Some? {
      HandOver(t[..], current'.value, rest', index', hi);
      current', rest' := Following(rest'), After(rest');
    }
  }

  /**
   * The `do ... while` loop of `forEachRemaining`: hands over `p` and the
   * rest of its bucket, then every node of buckets `i` up to `hi`.
   */
  method Drain<K, V>(t: array<Bin<K, V>>, hi: int, i: int, p: Option<Node<K, V>>, ps: seq<Node<K, V>>)
    returns (accepted: seq<Node<K, V>>)
    requires 0 <= i <= hi <= t.Length && (p.None? ==> ps == [])
    ensures accepted == Ahead(p, ps, t[..], i, hi)
  {
    ghost var bins := t[..];
    var index, next, rest := i, p, ps;
    accepted := [];
    while next.Some? || index < hi
      invariant i <= index <= hi && (next.None? ==> rest == [])
      invariant accepted + Ahead(next, rest, bins, index, hi) == Ahead(p, ps, bins, i, hi)
      decreases hi - index, |rest| + (if next.Some? then 1 else 0)
    {
      ghost var ahead := Ahead(next, rest, bins, index, hi);
      if next.None? {
        EnterBucket(bins, index, hi);
        var c := t[index].chain;
        next, rest := Following(c), After(c);
        index := index + 1;
      } else {
        HandOver(bins, next.value, rest, index, hi);
        assert accepted + ahead == accepted + [next.value] + Ahead(Following(rest), After(rest), bins, index, hi);
        accepted := accepted + [next.value];
        next, rest := Following(rest), After(rest);
      }
    }
  }

  /** `Spliterator.SIZED` and `Spliterator.DISTINCT`. */
  const Sized := 0x40
  const Distinct := 0x1

  /**
   * `HashedMapSpliterator` with its key, value and entry subclasses: a walk
   * over buckets `[index, fence)` of one table that can hand over one node
   * at a time, all of them, or split off the lower half of its range. The
   * range, the size estimate and the expected count are fixed on first use
   * (`fence < 0` until then). The key and value spliterators hand over the
   * node's key, the entry spliterator the node itself.
   */
  class HashedSpliterator<K(==), V(==)> {
    const bi: Nodes<K, V>
    const di: Nodes<V, K>
    var current: Option<Node<K, V>>
    var rest: seq<Node<K, V>>
    var index: int
    var fence: int
    var est: int
    var expectedModCount: int

    /** Neither table was modified since the counts were taken. */
    ghost predicate Synced()
      reads this, bi, di
    {
      bi.modCount + di.modCount == expectedModCount
    }

    /** One past the last bucket: the fence, or the whole table before first use. */
    ghost function Hi(): int
      reads this, bi
    {
      if fence >= 0 then fence else if bi.table == null then 0 else bi.table.Length
    }

    /** The walk still describes the table: it has not started, or nothing changed since it did. */
    ghost predicate Live()
      reads this, bi, di
    {
      fence < 0 || Synced()
    }

    ghost predicate Valid()
      reads this, bi, bi.table, di
    {
      && 0 <= index && 0 <= est && 0 <= bi.size
      && (current.None? ==> rest == [])
      && (fence < 0 ==> index == 0 && current.None?)
      && (current.Some? ==> 0 < index)
      && (fence >= 0 ==> index <= fence)
      && (Live() ==> Hi() <= |bi.Bins()|)
    }

    /** The nodes the walk has still to hand over, in order. */
    ghost function Pending(): seq<Node<K, V>>
      reads this, bi, bi.table
      requires 0 <= index <= Hi() <= |bi.Bins()|
    {
      Ahead(current, rest, bi.Bins(), index, Hi())
    }

    /** `new KeySpliterator<>(b, d, origin, fence, est, expectedModCount)` and its value and entry siblings. */
    constructor (bi: Nodes<K, V>, di: Nodes<V, K>, origin: int, fence: int, est: int, expectedModCount: int)
      requires 0 <= origin && 0 <= est && 0 <= bi.size && (fence < 0 ==> origin == 0) && (fence >= 0 ==> origin <= fence)
      requires fence >= 0 && bi.modCount + di.modCount == expectedModCount ==> fence <= |bi.Bins()|
      ensures this.bi == bi && this.di == di && current.None? && index == origin
      ensures this.fence == fence && this.est == est && this.expectedModCount == expectedModCount
      ensures Valid()
      ensures Live() ==> Pending() == Flat(bi.Bins()[origin..Hi()])
    {
      this.bi := bi;
      this.di := di;
      current := None;
      rest := [];
      index := origin;
      this.fence := fence;
      this.est := est;
      this.expectedModCount := expectedModCount;
    }

    /** `keySet().spliterator()` and the others: the whole table, settings fixed on first use. */
    static method Whole(bi: Nodes<K, V>, di: Nodes<V, K>) returns (s: HashedSpliterator<K, V>)
      requires bi.Valid()
      ensures fresh(s) && s.bi == bi && s.di == di && s.fence < 0 && s.Valid()
      ensures s.Pending() == Flat(bi.Bins())
    {
      s := new HashedSpliterator(bi, di, 0, -1, 0, 0);
      assert bi.Bins()[0..|bi.Bins()|] == bi.Bins();
    }

    /** `getFence()`: on first use, fixes the range end, the estimate and the expected count. */
    method GetFence() returns (hi: int)
      requires Valid()
      modifies this
      ensures Valid() && hi == old(Hi()) && fence == hi && hi >= 0
      ensures current == old(current) && rest == old(rest) && index == old(index)
      ensures old(fence) < 0 ==> est == bi.size && Synced()
      ensures old(fence) >= 0 ==> est == old(est) && expectedModCount == old(expectedModCount)
      ensures Live() == old(Live()) && (Live() ==> Pending() == old(Pending()))
    {
      hi := fence;
      if hi < 0 {
        est := bi.size;
        expectedModCount := bi.modCount + di.modCount;
        hi := if bi.table == null then 0 else bi.table.Length;
        fence := hi;
      }
    }

    /** `estimateSize()`: the estimate, which on first use is the table's size. */
    method EstimateSize() returns (r: int)
      requires Valid() && bi.Valid()
      modifies this
      ensures Valid() && r == est && fence >= 0
      ensures old(fence) < 0 ==> r == |bi.contents| && Synced()
      ensures current == old(current) && rest == old(rest) && index == old(index)
      ensures Live() == old(Live()) && (Live() ==> Pending() == old(Pending()))
    {
      var _ := GetFence();
      r := est;
    }

    /**
     * `trySplit()`: when the walk has not entered a bucket and its range
     * holds more than one bucket, the lower half `[lo, mid)` goes to a new
     * spliterator and this one keeps `[mid, hi)`; each gets half the estimate.
     */
    method TrySplit() returns (r: Option<HashedSpliterator<K, V>>)
      requires Valid()
      modifies this
      ensures Valid() && fence >= 0 && Live() == old(Live())
      ensures var mid := (old(index) + old(Hi())) / 2;
        (r.Some? <==> old(index) < mid && old(current).None?)
        && (r.Some? ==>
              fresh(r.value) && r.value.Valid() && r.value.bi == bi && r.value.di == di
              && r.value.index == old(index) && r.value.fence == index == mid && fence == old(Hi())
              && r.value.est == est == old(if fence < 0 then bi.size else est) / 2
              && r.value.expectedModCount == expectedModCount)
        && (r.None? ==> index == old(index) && current == old(current) && rest == old(rest))
      ensures Live() ==>
        (r.None? ==> Pending() == old(Pending()))
        && (r.Some? ==> r.value.Live() && old(Pending()) == r.value.Pending() + Pending())
    {
      var hi := GetFence();
      var lo := index;
      var mid := (lo + hi) / 2;
      if lo >= mid || current.Some? {
        return None;
      }
      var half := new HashedSpliterator(bi, di, lo, mid, est / 2, expectedModCount);
      Shrink(mid);
      return Some(half);
    }

    /** The shrinking part of `trySplit()`: this spliterator keeps `[mid, fence)` and half its estimate. */
    method Shrink(mid: int)
      requires Valid() && fence >= 0 && current.None? && index <= mid <= fence
      modifies this
      ensures Valid() && index == mid && est == old(est) / 2
      ensures fence == old(fence) && current == old(current) && rest == old(rest) && expectedModCount == old(expectedModCount)
      ensures Synced() ==> old(Pending()) == Flat(bi.Bins()[old(index)..mid]) + Pending()
    {
      ghost var bins := bi.Bins();
      if Synced() {
        FlatSplit(bins, index, mid, fence);
      }
      index, est := mid, est / 2;
    }

    /**
     * `tryAdvance(action)`: a null action is a NullPointerException;
     * otherwise the walk skips empty buckets up to its fence and hands the
     * next node to the action, then fails fast if either table was
     * modified; with nothing left it answers false.
     */
    method TryAdvance(action: bool) returns (accepted: Option<Node<K, V>>, r: Outcome<bool>)
      requires Valid()
      modifies this
      ensures Valid()
      ensures !action ==>
        r == Threw(NullPointer) && accepted.None?
        && current == old(current) && rest == old(rest) && index == old(index) && fence == old(fence)
      ensures action ==> fence >= 0 && Live() == old(Live())
      ensures action && old(Live()) ==>
        && Synced()
        && (old(Pending()) == [] ==> r == Returned(false) && accepted.None? && Pending() == [])
        && (old(Pending()) != [] ==> r == Returned(true) && accepted == Some(old(Pending())[0]) && Pending() == old(Pending())[1..])
      ensures action && !old(Live()) ==>
        r != Returned(true) && (accepted.Some? <==> r == Threw(ConcurrentModification))
    {
      if !action {
        return None, Threw(NullPointer);
      }
      var tab := bi.table;
      var hi := GetFence();
      accepted, r := None, Returned(false);
      if tab != null && tab.Length >= hi && index >= 0 {
        var n, i, c, rs := Step(tab, hi, index, current, rest);
        index, current, rest := i, c, rs;
        if n.Some? {
          accepted := n;
          r := if bi.modCount + di.modCount != expectedModCount then Threw(ConcurrentModification) else Returned(true);
        }
      }
    }

    /**
     * `forEachRemaining(action)`: a null action is a NullPointerException;
     * otherwise every node still ahead goes to the action, the walk ends at
     * its fence, and a modification of either table is reported at the end.
     */
    method ForEachRemaining(action: bool) returns (accepted: seq<Node<K, V>>, r: Outcome<()>)
      requires Valid()
      modifies this
      ensures Valid()
      ensures !action ==>
        r == Threw(NullPointer) && accepted == []
        && current == old(current) && rest == old(rest) && index == old(index) && fence == old(fence)
      ensures action ==> fence >= 0 && Live() == old(Live())
      ensures action && old(Live()) ==> r == Returned(()) && accepted == old(Pending()) && Synced() && Pending() == []
      ensures action && !old(Live()) && r == Returned(()) ==> accepted == []
    {
      if !action {
        return [], Threw(NullPointer);
      }
      var tab := bi.table;
      Start();
      var hi, mc := fence, expectedModCount;
      var i, p, ps := index, current, rest;
      accepted, r := [], Returned(());
      if tab != null && tab.Length >= hi && i >= 0 {
        index, current, rest := hi, None, [];
        if i < hi || p.Some? {
          accepted := Drain(tab, hi, i, p, ps);
          if bi.modCount + di.modCount != mc {
            r := Threw(ConcurrentModification);
          }
        }
      }
    }

    /** The opening of `forEachRemaining`: on first use, fixes the range end and the expected count (not the estimate). */
    method Start()
      requires Valid()
      modifies this
      ensures Valid() && fence == old(Hi()) && fence >= 0 && est == old(est)
      ensures current == old(current) && rest == old(rest) && index == old(index)
      ensures old(fence) < 0 ==> Synced()
      ensures old(fence) >= 0 ==> expectedModCount == old(expectedModCount)
      ensures Live() == old(Live()) && (Live() ==> Pending() == old(Pending()))
    {
      if fence < 0 {
        expectedModCount := bi.modCount + di.modCount;
        fence := if bi.table == null then 0 else bi.table.Length;
      }
    }

    /** `characteristics()`: SIZED until the estimate drifts from the size; DISTINCT for keys and entries, not for values. */
    function Characteristics(distinct: bool): (c: int)
      reads this, bi
      ensures (c / Sized) % 2 == 1 <==> fence < 0 || est == bi.size
      ensures c % 2 == 1 <==> distinct
    {
      (if fence < 0 || est == bi.size then Sized else 0) + (if distinct then Distinct else 0)
    }
  }

  /* ---------------- forEach of the set views ---------------- */

  /** The two nested loops of the views' `forEach`: every node of every bucket, in order. */
  method WalkTable<K, V>(t: array<Bin<K, V>>) returns (accepted: seq<Node<K, V>>)
    ensures accepted == Flat(t[..])
  {
    ghost var bins := t[..];
    accepted := [];
    for i := 0 to t.Length
      invariant accepted == Flat(bins[0..i])
    {
      var c := t[i].chain;
      for j := 0 to |c|
        invariant accepted == Flat(bins[0..i]) + c[..j]
      {
        assert c[..j + 1] == c[..j] + [c[j]];
        accepted := accepted + [c[j]];
      }
      FlatSplit(bins, 0, i, i + 1);
      FlatStep(bins, i, i + 1);
      assert c[..|c|] == c;
    }
    assert bins[0..t.Length] == bins;
  }

  /**
   * `forEach(action)` of a set view: a null action is a NullPointerException;
   * otherwise, when the map holds something, every node of `t` goes to the
   * action (the key and entry sets walk the forward table, the value and
   * inverse-entry sets the inverse one). The action cannot reach the map,
   * so the closing modification check finds nothing.
   */
  method ForEach<K, V>(size: int, t: array?<Bin<K, V>>, action: bool) returns (accepted: seq<Node<K, V>>, r: Outcome<()>)
    ensures !action ==> r == Threw(NullPointer) && accepted == []
    ensures action ==> r == Returned(()) && accepted == (if size > 0 && t != null then Flat(t[..]) else [])
  {
    if !action {
      return [], Threw(NullPointer);
    }
    accepted := [];
    if size > 0 && t != null {
      accepted := WalkTable(t);
    }
    return accepted, Returned(());
  }
}
