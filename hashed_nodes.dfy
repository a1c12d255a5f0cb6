/**
 * `HashedBidirectionalMap.Nodes`: one direction of the map, a power-of-two
 * table of buckets in the manner of `java.util.HashMap`. A bucket is its
 * `next` chain, held as a sequence of nodes, plus whether the chain's nodes
 * are tree nodes; the red-black links of a tree bucket are in `TreeBins`.
 */
module HashedNodes {
  import opened Wrappers
  import Hashing

  const DefaultInitialCapacity: int := 16
  const MaximumCapacity: int := 0x4000_0000
  const TreeifyThreshold: int := 8
  const UntreeifyThreshold: int := 6
  const MinTreeifyCapacity: int := 64
  const IntMax: int := 0x7fff_ffff
  const DefaultLoadFactor: real := 0.75

  /** A table entry; `hash` is the Java int the hasher gave for `key`. */
  datatype Node<K, V> = Node(hash: int, key: Option<K>, value: Option<V>)

  /** One bucket: its `next` chain in order, and whether those nodes are tree nodes. An empty chain is a null bucket. */
  datatype Bin<K, V> = Bin(chain: seq<Node<K, V>>, treed: bool)

  /** A 32-bit pattern read as a Java int. */
  function Signed(b: bv32): int
  {
    if b < 0x8000_0000 then b as int else b as int - 0x1_0000_0000
  }

  /** Java int arithmetic: `x` wrapped into the int range. */
  function JavaInt(x: int): (r: int)
    ensures -0x8000_0000 <= r < 0x8000_0000
    ensures (r - x) % 0x1_0000_0000 == 0
    ensures -0x8000_0000 <= x < 0x8000_0000 ==> r == x
  {
    (x + 0x8000_0000) % 0x1_0000_0000 - 0x8000_0000
  }

  /** `hasher.hash(key)` for keys whose `hashCode()` is `hashCode`; null hashes as `Optional.empty()`. */
  function HashOf<K>(hasher: Hashing.Hasher, hashCode: K -> bv32, key: Option<K>): int
  {
    Signed(Hashing.Hash(hasher, if key.Some? then Some(hashCode(key.value)) else None))
  }

  /** Java's `(int)` cast of a (finite) float: truncation toward zero, saturating at the int range. */
  function IntCast(x: real): (r: int)
    ensures x >= 0.0 ==> r == if x >= IntMax as real then IntMax else x.Floor
  {
    if x >= IntMax as real then IntMax
    else if x <= -0x8000_0000 as real then -0x8000_0000
    else if x >= 0.0 then x.Floor
    else -((-x).Floor)
  }

  /* ---------------- Capacities ---------------- */

  predicate IsPow2(n: int)
    decreases if n < 0 then 0 else n
  {
    n == 1 || (n >= 2 && n % 2 == 0 && IsPow2(n / 2))
  }

  lemma {:induction false} DoubleIsPow2(n: int)
    requires IsPow2(n)
    ensures IsPow2(2 * n)
  {
    assert (2 * n) / 2 == n;
  }

  /** A power of two no larger than `MAXIMUM_CAPACITY`, as a 32-bit pattern. */
  predicate BvPowerOfTwo(r: bv32)
  {
    r != 0 && r & (r - 1) == 0 && r <= 0x4000_0000
  }

  /** The five `n |= n >>> s` steps: every bit below the highest set bit becomes set. */
  function FillBelow(c: bv32): bv32
  {
    var n1 := c | (c >> 1);
    var n2 := n1 | (n1 >> 2);
    var n3 := n2 | (n2 >> 4);
    var n4 := n3 | (n3 >> 8);
    n4 | (n4 >> 16)
  }

  /**
   * `tableSizeFor(cap)` on the bits of a Java int: always a power of two in
   * [1, 2^30], and for 1 <= cap <= 2^30 the least power of two that is at
   * least `cap` (half of it is already below `cap`).
   */
  function TableSizeFor(cap: bv32): (r: bv32)
    ensures BvPowerOfTwo(r)
    ensures 1 <= cap <= 0x4000_0000 ==> cap <= r && r / 2 < cap
  {
    var n := FillBelow(cap - 1);
    if n >= 0x8000_0000 then 1
    else if n >= 0x4000_0000 then 0x4000_0000
    else n + 1
  }

  /** A 32-bit power of two read as an int is a power of two in [1, 2^30]. */
  lemma PowerOfTwoAsInt(r: bv32)
    requires BvPowerOfTwo(r)
    ensures IsPow2(r as int) && 1 <= r as int <= 0x4000_0000
  {
    var x := r as int;
    var p := 1;
    var b: bv32 := 1;
    while b != r
      invariant IsPow2(p) && b as int == p && BvPowerOfTwo(b) && b <= r
      decreases 0x4000_0000 - p
    {
      DoubleIsPow2(p);
      p := 2 * p;
      b := b + b;
    }
  }

  /**
   * The bucket of a hash in a table of length `n`: `(n - 1) & hash`, which
   * for a power-of-two `n` is the hash's remainder modulo `n`.
   */
  function Index(hash: int, n: int): (r: int)
    requires n > 0
    ensures 0 <= r < n
  {
    hash % n
  }

  /** `(hash & oldCap) != 0` for a power-of-two `oldCap = n`: the bit that decides a node's half on resize. */
  predicate HighBit(hash: int, n: int)
    requires n > 0
  {
    hash % (2 * n) >= n
  }

  lemma MulAtLeast(a: int, n: int)
    requires a >= 1 && n > 0
    ensures a * n >= n
  {
    assert a * n == (a - 1) * n + n;
  }

  /** Euclidean division has one answer. */
  lemma ModUnique(x: int, n: int, q: int, r: int)
    requires n > 0 && 0 <= r < n && x == q * n + r
    ensures x % n == r
  {
    var q', r' := x / n, x % n;
    assert x == q' * n + r';
    assert (q - q') * n == q * n - q' * n;
    if q > q' {
      MulAtLeast(q - q', n);
    } else if q < q' {
      assert (q' - q) * n == q' * n - q * n;
      MulAtLeast(q' - q, n);
    }
  }

  /** Doubling the table keeps a node in its bucket `j` or moves it to `j + n`, as its high bit says. */
  lemma SplitIndex(hash: int, n: int)
    requires n > 0
    ensures Index(hash, 2 * n) == Index(hash, n) + (if HighBit(hash, n) then n else 0)
  {
    var q := hash / (2 * n);
    var r := hash % (2 * n);
    assert hash == (2 * q) * n + r;
    if r < n {
      ModUnique(hash, n, 2 * q, r);
    } else {
      assert hash == (2 * q + 1) * n + (r - n);
      ModUnique(hash, n, 2 * q + 1, r - n);
    }
  }

  /* ---------------- Chains ---------------- */

  /** The keys of a chain, in `next` order. */
  function KeysOf<K, V>(c: seq<Node<K, V>>): (r: seq<Option<K>>)
    ensures |r| == |c| && forall j :: 0 <= j < |c| ==> r[j] == c[j].key
  {
    seq(|c|, j requires 0 <= j < |c| => c[j].key)
  }

  ghost predicate DistinctKeys<K, V>(c: seq<Node<K, V>>)
  {
    forall i, j :: 0 <= i < j < |c| ==> c[i].key != c[j].key
  }

  /** The mappings a chain holds. */
  ghost function ChainMap<K, V>(c: seq<Node<K, V>>): map<Option<K>, Option<V>>
  {
    if |c| == 0 then map[] else ChainMap(c[..|c| - 1])[c[|c| - 1].key := c[|c| - 1].value]
  }

  /** A chain maps exactly the keys of its nodes. */
  lemma {:induction false} ChainMapKeys<K, V>(c: seq<Node<K, V>>, k: Option<K>)
    ensures k in ChainMap(c) <==> k in KeysOf(c)
  {
    if |c| > 0 {
      var p := c[..|c| - 1];
      ChainMapKeys(p, k);
      if k in KeysOf(c) && k != c[|c| - 1].key {
        var j :| 0 <= j < |c| && KeysOf(c)[j] == k;
        assert KeysOf(p)[j] == k;
      }
      if k in KeysOf(p) {
        var j :| 0 <= j < |p| && KeysOf(p)[j] == k;
        assert KeysOf(c)[j] == k;
      }
    }
  }

  /** Each node of a chain with distinct keys is what the chain maps its key to. */
  lemma {:induction false} ChainMapAt<K, V>(c: seq<Node<K, V>>, t: int)
    requires DistinctKeys(c) && 0 <= t < |c|
    ensures c[t].key in ChainMap(c) && ChainMap(c)[c[t].key] == c[t].value
  {
    if t < |c| - 1 {
      ChainMapAt(c[..|c| - 1], t);
    }
  }

  /** Replacing a node by one with the same key updates that key's mapping only. */
  lemma {:induction false} ChainMapUpdate<K, V>(c: seq<Node<K, V>>, t: int, n: Node<K, V>)
    requires 0 <= t < |c| && n.key == c[t].key && DistinctKeys(c)
    ensures DistinctKeys(c[t := n])
    ensures ChainMap(c[t := n]) == ChainMap(c)[n.key := n.value]
  {
    var c' := c[t := n];
    if t == |c| - 1 {
      assert c'[..|c'| - 1] == c[..|c| - 1];
    } else {
      assert c'[..|c'| - 1] == c[..|c| - 1][t := n];
      ChainMapUpdate(c[..|c| - 1], t, n);
    }
  }

  /** Unlinking a node of a chain with distinct keys drops exactly its key. */
  lemma {:induction false} ChainMapRemove<K, V>(c: seq<Node<K, V>>, t: int)
    requires 0 <= t < |c| && DistinctKeys(c)
    ensures DistinctKeys(c[..t] + c[t + 1..])
    ensures ChainMap(c[..t] + c[t + 1..]) == ChainMap(c) - {c[t].key}
  {
    var c' := c[..t] + c[t + 1..];
    if t == |c| - 1 {
      assert c' == c[..|c| - 1];
      ChainMapKeys(c', c[t].key);
    } else {
      var p := c[..|c| - 1];
      assert c'[..|c'| - 1] == p[..t] + p[t + 1..];
      assert c'[|c'| - 1] == c[|c| - 1];
      ChainMapRemove(p, t);
    }
  }

  /** The chain left once the node holding `k` is unlinked: every other node, in order. */
  function Without<K(==), V>(c: seq<Node<K, V>>, k: Option<K>): (r: seq<Node<K, V>>)
    ensures |r| <= |c|
  {
    if |c| == 0 then [] else (if c[0].key == k then [] else [c[0]]) + Without(c[1..], k)
  }

  /** Unlinking from a concatenation unlinks from each part. */
  lemma {:induction false} WithoutConcat<K, V>(p: seq<Node<K, V>>, s: seq<Node<K, V>>, k: Option<K>)
    ensures Without(p + s, k) == Without(p, k) + Without(s, k)
  {
    if |p| > 0 {
      assert (p + s)[1..] == p[1..] + s;
      WithoutConcat(p[1..], s, k);
    } else {
      assert p + s == s;
    }
  }

  /** A chain without the key has nothing to unlink. */
  lemma {:induction false} WithoutAbsent<K, V>(c: seq<Node<K, V>>, k: Option<K>)
    requires forall t :: 0 <= t < |c| ==> c[t].key != k
    ensures Without(c, k) == c
  {
    if |c| > 0 {
      WithoutAbsent(c[1..], k);
    }
  }

  /** Unlinking a key the tail does not hold leaves the tail in place. */
  lemma WithoutKeepsTail<K, V>(p: seq<Node<K, V>>, s: seq<Node<K, V>>, k: Option<K>)
    requires forall t :: 0 <= t < |s| ==> s[t].key != k
    ensures Without(p + s, k) == Without(p, k) + s
  {
    WithoutConcat(p, s, k);
    WithoutAbsent(s, k);
  }

  /** A sequence is its part before `t`, its element at `t`, and its part after. */
  lemma SplitAt<T>(c: seq<T>, t: int)
    requires 0 <= t < |c|
    ensures c == c[..t] + ([c[t]] + c[t + 1..])
  {
    assert c[t..] == [c[t]] + c[t + 1..];
    assert c == c[..t] + c[t..];
  }

  /** With distinct keys, unlinking the key of node `t` cuts out exactly that node. */
  lemma WithoutAt<K, V>(c: seq<Node<K, V>>, t: int)
    requires 0 <= t < |c| && DistinctKeys(c)
    ensures Without(c, c[t].key) == c[..t] + c[t + 1..]
  {
    var k, p, s := c[t].key, c[..t], c[t + 1..];
    assert forall j :: 0 <= j < |p| ==> p[j].key != k by {
      forall j | 0 <= j < |p|
        ensures p[j].key != k
      {
        assert p[j] == c[j];
      }
    }
    assert forall j :: 0 <= j < |s| ==> s[j].key != k by {
      forall j | 0 <= j < |s|
        ensures s[j].key != k
      {
        assert s[j] == c[t + 1 + j];
      }
    }
    assert Without([c[t]], k) == [] by {
      assert [c[t]][1..] == [];
    }
    calc {
      Without(c, k);
      { SplitAt(c, t); }
      Without(p + ([c[t]] + s), k);
      { WithoutConcat(p, [c[t]] + s, k); }
      Without(p, k) + Without([c[t]] + s, k);
      { WithoutAbsent(p, k); WithoutConcat([c[t]], s, k); }
      p + (Without([c[t]], k) + Without(s, k));
      { WithoutAbsent(s, k); }
      p + s;
    }
  }

  /** Appending a node with a fresh key keeps the keys distinct. */
  lemma AppendDistinct<K, V>(c: seq<Node<K, V>>, n: Node<K, V>)
    requires DistinctKeys(c) && n.key !in KeysOf(c)
    ensures DistinctKeys(c + [n])
    ensures ChainMap(c + [n]) == ChainMap(c)[n.key := n.value]
  {
    assert (c + [n])[..|c|] == c;
    forall i, j | 0 <= i < j < |c| + 1
      ensures (c + [n])[i].key != (c + [n])[j].key
    {
      if j == |c| {
        assert KeysOf(c)[i] == c[i].key;
      }
    }
  }

  /**
   * The nodes of a chain that go to the upper half (`high`) or stay in the
   * lower half when a table of length `n` doubles, in chain order.
   */
  function Half<K, V>(c: seq<Node<K, V>>, n: int, high: bool): (r: seq<Node<K, V>>)
    requires n > 0
    ensures |r| <= |c|
    ensures forall x :: x in r ==> x in c && HighBit(x.hash, n) == high
  {
    if |c| == 0 then []
    else if HighBit(c[|c| - 1].hash, n) == high then Half(c[..|c| - 1], n, high) + [c[|c| - 1]]
    else Half(c[..|c| - 1], n, high)
  }

  lemma {:induction false} HalfDistinct<K, V>(c: seq<Node<K, V>>, n: int, high: bool)
    requires n > 0 && DistinctKeys(c)
    ensures DistinctKeys(Half(c, n, high))
  {
    if |c| > 0 {
      var p := c[..|c| - 1];
      HalfDistinct(p, n, high);
      if HighBit(c[|c| - 1].hash, n) == high {
        var h := Half(p, n, high);
        forall t | 0 <= t < |h|
          ensures h[t].key != c[|c| - 1].key
        {
          assert h[t] in h;
          var u :| 0 <= u < |p| && p[u] == h[t];
          assert c[u] == p[u];
        }
        AppendDistinct(h, c[|c| - 1]);
      }
    }
  }

  /**
   * A half keeps exactly the mappings whose key hashes to that half: `hk`
   * is the hash every node with key `k` carries.
   */
  lemma {:induction false} HalfMap<K, V>(c: seq<Node<K, V>>, n: int, high: bool, k: Option<K>, hk: int)
    requires n > 0 && DistinctKeys(c)
    requires forall t :: 0 <= t < |c| && c[t].key == k ==> c[t].hash == hk
    ensures k in ChainMap(Half(c, n, high)) <==> k in ChainMap(c) && HighBit(hk, n) == high
    ensures k in ChainMap(Half(c, n, high)) ==> ChainMap(Half(c, n, high))[k] == ChainMap(c)[k]
  {
    if |c| == 0 {
    } else {
      var p := c[..|c| - 1];
      var last := c[|c| - 1];
      HalfMap(p, n, high, k, hk);
      if HighBit(last.hash, n) == high {
        assert Half(c, n, high) == Half(p, n, high) + [last];
        assert ChainMap(Half(c, n, high)) == ChainMap(Half(p, n, high))[last.key := last.value] by {
          assert (Half(p, n, high) + [last])[..|Half(p, n, high)|] == Half(p, n, high);
        }
      }
    }
  }

  /** A key not on any node of a chain is not mapped by it. */
  lemma NotInChain<K, V>(c: seq<Node<K, V>>, k: Option<K>)
    requires forall t :: 0 <= t < |c| ==> c[t].key != k
    ensures k !in ChainMap(c) && k !in KeysOf(c)
  {
    ChainMapKeys(c, k);
  }

  /** A key a chain maps is the key of one of its nodes. */
  lemma InChain<K, V>(c: seq<Node<K, V>>, k: Option<K>) returns (t: int)
    requires k in ChainMap(c)
    ensures 0 <= t < |c| && c[t].key == k
  {
    ChainMapKeys(c, k);
    t :| 0 <= t < |c| && KeysOf(c)[t] == k;
  }

  /** The first node of a chain with the given hash and key, or -1: the `next`-walk of `get`, `put` and `remove`. */
  method FindNode<K(==), V>(c: seq<Node<K, V>>, hash: int, key: Option<K>) returns (t: int)
    ensures -1 <= t < |c|
    ensures 0 <= t ==> c[t].hash == hash && c[t].key == key
    ensures t < 0 ==> forall u :: 0 <= u < |c| ==> !(c[u].hash == hash && c[u].key == key)
  {
    t := 0;
    while t < |c|
      invariant 0 <= t <= |c|
      invariant forall u :: 0 <= u < t ==> !(c[u].hash == hash && c[u].key == key)
    {
      if c[t].hash == hash && c[t].key == key {
        return;
      }
      t := t + 1;
    }
    t := -1;
  }

  /* ---------------- Tables ---------------- */

  /** Bucket `i` of a table of length `n`: distinct keys, each node carrying its key's hash, which selects bucket `i`; a null bucket is no tree. */
  ghost predicate BinPlaced<K, V>(h: Option<K> -> int, b: Bin<K, V>, i: int, n: int)
    requires n > 0
  {
    DistinctKeys(b.chain) && (|b.chain| == 0 ==> !b.treed)
    && forall t :: 0 <= t < |b.chain| ==> b.chain[t].hash == h(b.chain[t].key) && Index(b.chain[t].hash, n) == i
  }

  /** A table holds `contents`: every node in place, every mapping in its key's bucket, and nothing else. */
  ghost predicate TableHolds<K, V>(h: Option<K> -> int, bins: seq<Bin<K, V>>, contents: map<Option<K>, Option<V>>)
  {
    |bins| > 0
    && (forall i :: 0 <= i < |bins| ==> BinPlaced(h, bins[i], i, |bins|))
    && (forall k {:trigger contents[k]} :: k in contents ==>
          k in ChainMap(bins[Index(h(k), |bins|)].chain) && ChainMap(bins[Index(h(k), |bins|)].chain)[k] == contents[k])
    && (forall i, t :: 0 <= i < |bins| && 0 <= t < |bins[i].chain| ==> bins[i].chain[t].key in contents)
  }

  /**
   * `TableHolds` one recursive step away. A use of a recursive predicate is
   * unfolded only one level, so a method that keeps the table invariant sees
   * `Holds(h, bins, contents, 1)` folded, and reasons about it through the
   * bucket lemmas below rather than through the invariant's quantifiers.
   */
  ghost predicate Holds<K, V>(h: Option<K> -> int, bins: seq<Bin<K, V>>, contents: map<Option<K>, Option<V>>, depth: nat)
  {
    if depth == 0 then TableHolds(h, bins, contents) else Holds(h, bins, contents, depth - 1)
  }

  lemma HoldsIs<K, V>(h: Option<K> -> int, bins: seq<Bin<K, V>>, contents: map<Option<K>, Option<V>>)
    ensures Holds(h, bins, contents, 1) <==> TableHolds(h, bins, contents)
  {
    assert Holds(h, bins, contents, 0) == TableHolds(h, bins, contents);
  }

  /** A key is mapped exactly when its own bucket maps it. */
  lemma TableLookup<K, V>(h: Option<K> -> int, bins: seq<Bin<K, V>>, contents: map<Option<K>, Option<V>>, k: Option<K>)
    requires TableHolds(h, bins, contents)
    ensures k in contents <==> k in ChainMap(bins[Index(h(k), |bins|)].chain)
  {
    var c := bins[Index(h(k), |bins|)].chain;
    if k in ChainMap(c) {
      var t := InChain(c, k);
      assert c[t].key in contents;
    }
  }

  /** Replacing a key's bucket by one that maps the key to `v` stores `v` and keeps the table in place. */
  lemma TablePut<K, V>(h: Option<K> -> int, bins: seq<Bin<K, V>>, contents: map<Option<K>, Option<V>>, k: Option<K>, v: Option<V>, b: Bin<K, V>)
    requires TableHolds(h, bins, contents)
    requires BinPlaced(h, b, Index(h(k), |bins|), |bins|)
    requires ChainMap(b.chain) == ChainMap(bins[Index(h(k), |bins|)].chain)[k := v]
    ensures TableHolds(h, bins[Index(h(k), |bins|) := b], contents[k := v])
  {
    var s := Index(h(k), |bins|);
    var bins' := bins[s := b];
    forall i, t | 0 <= i < |bins'| && 0 <= t < |bins'[i].chain|
      ensures bins'[i].chain[t].key in contents[k := v]
    {
      if i == s {
        var x := b.chain[t].key;
        ChainMapKeys(b.chain, x);
        assert KeysOf(b.chain)[t] == x;
        if x != k {
          var u := InChain(bins[s].chain, x);
        }
      }
    }
  }

  /** Replacing a key's bucket by one without the key removes it and keeps the table in place. */
  lemma TableRemove<K, V>(h: Option<K> -> int, bins: seq<Bin<K, V>>, contents: map<Option<K>, Option<V>>, k: Option<K>, b: Bin<K, V>)
    requires TableHolds(h, bins, contents)
    requires BinPlaced(h, b, Index(h(k), |bins|), |bins|)
    requires ChainMap(b.chain) == ChainMap(bins[Index(h(k), |bins|)].chain) - {k}
    ensures TableHolds(h, bins[Index(h(k), |bins|) := b], contents - {k})
  {
    var s := Index(h(k), |bins|);
    var bins' := bins[s := b];
    forall i, t | 0 <= i < |bins'| && 0 <= t < |bins'[i].chain|
      ensures bins'[i].chain[t].key in contents - {k}
    {
      if i == s {
        var x := b.chain[t].key;
        ChainMapKeys(b.chain, x);
        assert KeysOf(b.chain)[t] == x;
        var u := InChain(bins[s].chain, x);
      }
    }
  }

  /** Overwriting node `t` of key `k`'s bucket with value `v`: the table now maps `k` to `v`, with the same keys in every bucket. */
  lemma BinSet<K, V>(h: Option<K> -> int, bins: seq<Bin<K, V>>, contents: map<Option<K>, Option<V>>, k: Option<K>, v: Option<V>, t: int)
    requires |bins| > 0 && Holds(h, bins, contents, 1)
    requires var c := bins[Index(h(k), |bins|)].chain; 0 <= t < |c| && c[t].key == k
    ensures var s := Index(h(k), |bins|); var b := bins[s];
      Holds(h, bins[s := Bin(b.chain[t := Node(h(k), k, v)], b.treed)], contents[k := v], 1)
      && KeyLayout(bins[s := Bin(b.chain[t := Node(h(k), k, v)], b.treed)]) == KeyLayout(bins)
  {
    HoldsIs(h, bins, contents);
    var s := Index(h(k), |bins|);
    var b := bins[s];
    assert BinPlaced(h, b, s, |bins|);
    var b' := Bin(b.chain[t := Node(h(k), k, v)], b.treed);
    ChainMapUpdate(b.chain, t, Node(h(k), k, v));
    TablePut(h, bins, contents, k, v, b');
    HoldsIs(h, bins[s := b'], contents[k := v]);
    assert KeysOf(b'.chain) == KeysOf(b.chain);
    assert KeyLayout(bins[s := b']) == KeyLayout(bins);
  }

  /** Appending a node for an unmapped key `k` to its bucket maps it to `v`. */
  lemma BinAppend<K, V>(h: Option<K> -> int, bins: seq<Bin<K, V>>, contents: map<Option<K>, Option<V>>, k: Option<K>, v: Option<V>)
    requires |bins| > 0 && Holds(h, bins, contents, 1) && k !in contents
    ensures var s := Index(h(k), |bins|); var b := bins[s];
      Holds(h, bins[s := Bin(b.chain + [Node(h(k), k, v)], b.treed)], contents[k := v], 1)
  {
    HoldsIs(h, bins, contents);
    var s := Index(h(k), |bins|);
    var b := bins[s];
    assert BinPlaced(h, b, s, |bins|);
    TableLookup(h, bins, contents, k);
    ChainMapKeys(b.chain, k);
    AppendDistinct(b.chain, Node(h(k), k, v));
    TablePut(h, bins, contents, k, v, Bin(b.chain + [Node(h(k), k, v)], b.treed));
    HoldsIs(h, bins[s := Bin(b.chain + [Node(h(k), k, v)], b.treed)], contents[k := v]);
  }

  /** Unlinking node `t` of key `k`'s bucket removes `k`; a bucket left without nodes is a null bucket. */
  lemma BinUnlink<K, V>(h: Option<K> -> int, bins: seq<Bin<K, V>>, contents: map<Option<K>, Option<V>>, k: Option<K>, t: int)
    requires |bins| > 0 && Holds(h, bins, contents, 1)
    requires var c := bins[Index(h(k), |bins|)].chain; 0 <= t < |c| && c[t].key == k
    ensures var s := Index(h(k), |bins|); var b := bins[s]; var rest := b.chain[..t] + b.chain[t + 1..];
      Holds(h, bins[s := Bin(rest, b.treed && |rest| > 0)], contents - {k}, 1) && rest == Without(b.chain, k)
  {
    HoldsIs(h, bins, contents);
    var s := Index(h(k), |bins|);
    var b := bins[s];
    assert BinPlaced(h, b, s, |bins|);
    WithoutAt(b.chain, t);
    var rest := b.chain[..t] + b.chain[t + 1..];
    ChainMapRemove(b.chain, t);
    var b' := Bin(rest, b.treed && |rest| > 0);
    forall u | 0 <= u < |rest|
      ensures rest[u].hash == h(rest[u].key) && Index(rest[u].hash, |bins|) == s
    {
      if u < t {
        assert rest[u] == b.chain[u];
      } else {
        assert rest[u] == b.chain[u + 1];
      }
    }
    TableRemove(h, bins, contents, k, b');
    HoldsIs(h, bins[s := b'], contents - {k});
  }

  /** Where `get`, `put` and `remove` look for `k`: the first node of its bucket with its hash and key, if any. */
  lemma BinSearch<K, V>(h: Option<K> -> int, bins: seq<Bin<K, V>>, contents: map<Option<K>, Option<V>>, k: Option<K>, t: int)
    requires |bins| > 0 && Holds(h, bins, contents, 1)
    requires var c := bins[Index(h(k), |bins|)].chain; -1 <= t < |c|
    requires var c := bins[Index(h(k), |bins|)].chain;
      (0 <= t ==> c[t].hash == h(k) && c[t].key == k)
      && (t < 0 ==> forall u :: 0 <= u < |c| ==> !(c[u].hash == h(k) && c[u].key == k))
    ensures k in contents <==> 0 <= t
    ensures 0 <= t ==> bins[Index(h(k), |bins|)].chain[t] == Node(h(k), k, contents[k])
  {
    HoldsIs(h, bins, contents);
    var c := bins[Index(h(k), |bins|)].chain;
    assert BinPlaced(h, bins[Index(h(k), |bins|)], Index(h(k), |bins|), |bins|);
    TableLookup(h, bins, contents, k);
    if t < 0 {
      NotInChain(c, k);
    } else {
      ChainMapAt(c, t);
    }
  }

  /** An empty table of `n` buckets holds nothing. */
  function EmptyBins<K, V>(n: nat): (r: seq<Bin<K, V>>)
    ensures |r| == n && forall i :: 0 <= i < n ==> r[i] == Bin([], false)
  {
    seq(n, _ => Bin([], false))
  }

  /**
   * Bucket `j` (`high` false) or `j + n` (`high` true) after a table of
   * length `n` doubles, from old bucket `j`: a lone node moves as it is;
   * otherwise each half keeps the chain's order, and a tree half of at most
   * `UNTREEIFY_THRESHOLD` nodes becomes a plain list.
   */
  function SplitBin<K, V>(b: Bin<K, V>, n: int, high: bool): (r: Bin<K, V>)
    requires n > 0
    ensures forall x :: x in r.chain ==> x in b.chain && HighBit(x.hash, n) == high
    ensures |r.chain| <= |b.chain|
    ensures r.treed ==> b.treed
  {
    var part := Half(b.chain, n, high);
    assert |b.chain| == 1 && |part| > 0 ==> part[0] in b.chain && b.chain == [part[0]];
    if |part| == 0 then Bin([], false)
    else if |b.chain| == 1 then b
    else Bin(part, b.treed && |part| > UntreeifyThreshold)
  }

  /** The doubled table `resize` builds from `bins`. */
  function Split<K, V>(bins: seq<Bin<K, V>>): (r: seq<Bin<K, V>>)
    requires |bins| > 0
    ensures |r| == 2 * |bins|
    ensures forall i :: 0 <= i < |bins| ==> r[i] == SplitBin(bins[i], |bins|, false) && r[i + |bins|] == SplitBin(bins[i], |bins|, true)
  {
    var n := |bins|;
    seq(2 * n, i requires 0 <= i < 2 * n => if i < n then SplitBin(bins[i], n, false) else SplitBin(bins[i - n], n, true))
  }

  lemma SplitBinNodes<K, V>(b: Bin<K, V>, n: int, high: bool, t: int)
    requires n > 0 && 0 <= t < |SplitBin(b, n, high).chain|
    ensures SplitBin(b, n, high).chain[t] in b.chain && HighBit(SplitBin(b, n, high).chain[t].hash, n) == high
  {
    var part := Half(b.chain, n, high);
    if |b.chain| == 1 {
      assert part[0] in part;
    } else {
      assert part[t] in part;
    }
  }

  lemma SplitPlaced<K, V>(h: Option<K> -> int, bins: seq<Bin<K, V>>, i: int)
    requires |bins| > 0 && 0 <= i < 2 * |bins|
    requires forall j :: 0 <= j < |bins| ==> BinPlaced(h, bins[j], j, |bins|)
    ensures BinPlaced(h, Split(bins)[i], i, 2 * |bins|)
  {
    var n := |bins|;
    var j, high := if i < n then i else i - n, i >= n;
    var b := bins[j];
    var r := SplitBin(b, n, high);
    assert Split(bins)[i] == r;
    HalfDistinct(b.chain, n, high);
    forall t | 0 <= t < |r.chain|
      ensures r.chain[t].hash == h(r.chain[t].key) && Index(r.chain[t].hash, 2 * n) == i
    {
      SplitBinNodes(b, n, high, t);
      SplitIndex(r.chain[t].hash, n);
    }
  }

  lemma SplitStores<K, V>(h: Option<K> -> int, bins: seq<Bin<K, V>>, k: Option<K>)
    requires |bins| > 0
    requires var j := Index(h(k), |bins|); BinPlaced(h, bins[j], j, |bins|) && k in ChainMap(bins[j].chain)
    ensures var c := Split(bins)[Index(h(k), 2 * |bins|)].chain;
      k in ChainMap(c) && ChainMap(c)[k] == ChainMap(bins[Index(h(k), |bins|)].chain)[k]
  {
    var n := |bins|;
    var j := Index(h(k), n);
    SplitIndex(h(k), n);
    assert Split(bins)[Index(h(k), 2 * n)] == SplitBin(bins[j], n, HighBit(h(k), n));
    SplitBinStores(h, bins[j], j, n, k);
  }

  /** A mapping of a bucket stays in the half of it its hash selects. */
  lemma SplitBinStores<K, V>(h: Option<K> -> int, b: Bin<K, V>, j: int, n: int, k: Option<K>)
    requires n > 0 && BinPlaced(h, b, j, n) && k in ChainMap(b.chain)
    ensures var c := SplitBin(b, n, HighBit(h(k), n)).chain; k in ChainMap(c) && ChainMap(c)[k] == ChainMap(b.chain)[k]
  {
    var high := HighBit(h(k), n);
    HalfMap(b.chain, n, high, k, h(k));
    if |b.chain| == 1 {
      var t := InChain(b.chain, k);
      assert Half(b.chain, n, high) == b.chain;
    }
  }

  lemma SplitKnown<K, V>(h: Option<K> -> int, bins: seq<Bin<K, V>>, contents: map<Option<K>, Option<V>>, i: int, t: int)
    requires TableHolds(h, bins, contents)
    requires 0 <= i < 2 * |bins| && 0 <= t < |Split(bins)[i].chain|
    ensures Split(bins)[i].chain[t].key in contents
  {
    var n := |bins|;
    var j, high := if i < n then i else i - n, i >= n;
    assert Split(bins)[i] == SplitBin(bins[j], n, high);
    SplitBinNodes(bins[j], n, high, t);
    var u :| 0 <= u < |bins[j].chain| && bins[j].chain[u] == Split(bins)[i].chain[t];
  }

  lemma SplitHolds<K, V>(h: Option<K> -> int, bins: seq<Bin<K, V>>, contents: map<Option<K>, Option<V>>)
    requires TableHolds(h, bins, contents)
    ensures TableHolds(h, Split(bins), contents)
  {
    forall i | 0 <= i < 2 * |bins|
      ensures BinPlaced(h, Split(bins)[i], i, 2 * |bins|)
    {
      SplitPlaced(h, bins, i);
    }
    forall k | k in contents
      ensures var c := Split(bins)[Index(h(k), 2 * |bins|)].chain; k in ChainMap(c) && ChainMap(c)[k] == contents[k]
    {
      assert BinPlaced(h, bins[Index(h(k), |bins|)], Index(h(k), |bins|), |bins|);
      SplitStores(h, bins, k);
    }
    forall i, t | 0 <= i < 2 * |bins| && 0 <= t < |Split(bins)[i].chain|
      ensures Split(bins)[i].chain[t].key in contents
    {
      SplitKnown(h, bins, contents, i, t);
    }
  }

  /** Doubling keeps every mapping and puts every node in the bucket its hash selects in the larger table. */
  lemma SplitKeepsTable<K, V>(h: Option<K> -> int, bins: seq<Bin<K, V>>, contents: map<Option<K>, Option<V>>)
    requires |bins| > 0 && Holds(h, bins, contents, 1)
    ensures Holds(h, Split(bins), contents, 1)
  {
    HoldsIs(h, bins, contents);
    SplitHolds(h, bins, contents);
    HoldsIs(h, Split(bins), contents);
  }

  /** A table of empty buckets holds the empty map. */
  lemma EmptyHolds<K, V>(h: Option<K> -> int, n: nat)
    requires n > 0
    ensures Holds(h, EmptyBins<K, V>(n), map[], 1)
  {
    HoldsIs(h, EmptyBins<K, V>(n), map[]);
  }

  /** Every bucket of a table is in place. */
  lemma PlacedBins<K, V>(h: Option<K> -> int, bins: seq<Bin<K, V>>, contents: map<Option<K>, Option<V>>)
    requires |bins| > 0 && Holds(h, bins, contents, 1)
    ensures forall i :: 0 <= i < |bins| ==> BinPlaced(h, bins[i], i, |bins|)
  {
    HoldsIs(h, bins, contents);
  }

  /** Every node of a table is one of its mappings. */
  lemma NodeMapped<K, V>(h: Option<K> -> int, bins: seq<Bin<K, V>>, contents: map<Option<K>, Option<V>>, i: int, t: int)
    requires TableHolds(h, bins, contents)
    requires 0 <= i < |bins| && 0 <= t < |bins[i].chain|
    ensures bins[i].chain[t].key in contents && contents[bins[i].chain[t].key] == bins[i].chain[t].value
  {
    var n := bins[i].chain[t];
    assert BinPlaced(h, bins[i], i, |bins|);
    var c := bins[Index(h(n.key), |bins|)].chain;
    assert c == bins[i].chain;
    ChainMapAt(c, t);
  }

  /** A table that holds nothing has only empty buckets. */
  lemma NothingHeld<K, V>(h: Option<K> -> int, bins: seq<Bin<K, V>>)
    requires |bins| > 0 && Holds(h, bins, map[], 1)
    ensures bins == EmptyBins(|bins|)
  {
    var none: map<Option<K>, Option<V>> := map[];
    HoldsIs(h, bins, none);
    forall i | 0 <= i < |bins|
      ensures bins[i] == Bin([], false)
    {
      assert BinPlaced(h, bins[i], i, |bins|);
      if |bins[i].chain| > 0 {
        NodeMapped(h, bins, none, i, 0);
        assert false;
      }
    }
  }

  /** Marking a non-empty bucket as a tree changes no mapping and no bucket's keys. */
  lemma TreeifyHolds<K, V>(h: Option<K> -> int, bins: seq<Bin<K, V>>, contents: map<Option<K>, Option<V>>, i: int)
    requires |bins| > 0 && Holds(h, bins, contents, 1)
    requires 0 <= i < |bins| && |bins[i].chain| > 0
    ensures Holds(h, bins[i := Bin(bins[i].chain, true)], contents, 1)
  {
    HoldsIs(h, bins, contents);
    var bins' := bins[i := Bin(bins[i].chain, true)];
    assert BinPlaced(h, bins[i], i, |bins|);
    assert forall j :: 0 <= j < |bins| ==> bins'[j].chain == bins[j].chain;
    HoldsIs(h, bins', contents);
  }

  /** The keys of each bucket, in order: what an iterator's position depends on. */
  function KeyLayout<K, V>(bins: seq<Bin<K, V>>): (r: seq<seq<Option<K>>>)
    ensures |r| == |bins| && forall i :: 0 <= i < |bins| ==> r[i] == KeysOf(bins[i].chain)
  {
    seq(|bins|, i requires 0 <= i < |bins| => KeysOf(bins[i].chain))
  }

  /** Powers of two below 2^30 can double without passing it. */
  lemma {:induction false} Pow2Gap(a: int, b: int)
    requires IsPow2(a) && IsPow2(b) && a < b
    ensures 2 * a <= b
  {
    if a >= 2 {
      Pow2Gap(a / 2, b / 2);
    }
  }

  /** The relinking loop of `resize` and `TreeNode.split`: the lo and hi lists, each in chain order. */
  method SplitChain<K, V>(c: seq<Node<K, V>>, n: int) returns (lo: seq<Node<K, V>>, hi: seq<Node<K, V>>)
    requires n > 0
    ensures lo == Half(c, n, false) && hi == Half(c, n, true)
  {
    lo, hi := [], [];
    var t := 0;
    while t < |c|
      invariant 0 <= t <= |c|
      invariant lo == Half(c[..t], n, false) && hi == Half(c[..t], n, true)
    {
      assert c[..t + 1][..t] == c[..t];
      if HighBit(c[t].hash, n) {
        hi := hi + [c[t]];
      } else {
        lo := lo + [c[t]];
      }
      t := t + 1;
    }
    assert c[..t] == c;
  }

  /** A bucket of one node moves whole to the half its hash selects, leaving the other half empty. */
  lemma SplitLone<K, V>(h: Option<K> -> int, b: Bin<K, V>, j: int, n: int)
    requires 0 <= j < n && BinPlaced(h, b, j, n) && |b.chain| == 1
    ensures Index(b.chain[0].hash, 2 * n) == if HighBit(b.chain[0].hash, n) then j + n else j
    ensures SplitBin(b, n, HighBit(b.chain[0].hash, n)) == b
    ensures SplitBin(b, n, !HighBit(b.chain[0].hash, n)) == Bin([], false)
  {
    var e := b.chain[0];
    SplitIndex(e.hash, n);
    assert b.chain[..0] == [];
    assert Half(b.chain, n, HighBit(e.hash, n)) == b.chain;
    assert Half(b.chain, n, !HighBit(e.hash, n)) == [];
  }

  /**
   * One step of the relinking loop of `resize`: the nodes of old bucket `j`
   * move to bucket `j` or `j + oldCap` of the doubled table, in chain order,
   * and the old bucket is nulled.
   */
  method MoveBin<K, V>(ghost h: Option<K> -> int, oldTab: array<Bin<K, V>>, newTab: array<Bin<K, V>>, j: int)
    requires oldTab != newTab && newTab.Length == 2 * oldTab.Length && 0 <= j < oldTab.Length
    requires BinPlaced(h, oldTab[j], j, oldTab.Length)
    requires newTab[j] == Bin([], false) && newTab[j + oldTab.Length] == Bin([], false)
    modifies oldTab, newTab
    ensures newTab[j] == SplitBin(old(oldTab[j]), oldTab.Length, false)
    ensures newTab[j + oldTab.Length] == SplitBin(old(oldTab[j]), oldTab.Length, true)
    ensures forall i :: 0 <= i < newTab.Length && i != j && i != j + oldTab.Length ==> newTab[i] == old(newTab[i])
    ensures oldTab[j] == Bin([], false)
    ensures forall i :: 0 <= i < oldTab.Length && i != j ==> oldTab[i] == old(oldTab[i])
  {
    var oldCap := oldTab.Length;
    var b := oldTab[j];
    if |b.chain| > 0 {
      oldTab[j] := Bin([], false);
      if |b.chain| == 1 {
        // a lone node goes straight to the bucket its hash selects
        var e := b.chain[0];
        SplitLone(h, b, j, oldCap);
        newTab[Index(e.hash, newTab.Length)] := b;
      } else {
        // plain lists and tree bins relink alike; a tree half of at most UNTREEIFY_THRESHOLD nodes is untreeified
        var lo, hi := SplitChain(b.chain, oldCap);
        if |lo| > 0 {
          newTab[j] := Bin(lo, b.treed && |lo| > UntreeifyThreshold);
        }
        if |hi| > 0 {
          newTab[j + oldCap] := Bin(hi, b.treed && |hi| > UntreeifyThreshold);
        }
      }
    }
  }

  /** Bucket `i` of the doubled table once the first `j` old buckets have been moved. */
  function MovedAt<K, V>(bins: seq<Bin<K, V>>, j: int, i: int): Bin<K, V>
    requires 0 <= i < 2 * |bins|
  {
    var n := |bins|;
    if i < n then (if i < j then SplitBin(bins[i], n, false) else Bin([], false))
    else if i - n < j then SplitBin(bins[i - n], n, true)
    else Bin([], false)
  }

  /** The relinking loop of `resize`, over every old bucket in turn. */
  method Transfer<K, V>(ghost h: Option<K> -> int, oldTab: array<Bin<K, V>>, newTab: array<Bin<K, V>>)
    requires oldTab != newTab && oldTab.Length > 0 && newTab.Length == 2 * oldTab.Length
    requires forall i :: 0 <= i < oldTab.Length ==> BinPlaced(h, oldTab[i], i, oldTab.Length)
    requires forall i :: 0 <= i < newTab.Length ==> newTab[i] == Bin([], false)
    modifies oldTab, newTab
    ensures newTab[..] == Split(old(oldTab[..]))
    ensures forall i :: 0 <= i < oldTab.Length ==> oldTab[i] == Bin([], false)
  {
    var oldCap := oldTab.Length;
    ghost var oldBins := oldTab[..];
    var j := 0;
    while j < oldCap
      invariant 0 <= j <= oldCap
      invariant forall i :: 0 <= i < 2 * oldCap ==> newTab[i] == MovedAt(oldBins, j, i)
      invariant forall i :: 0 <= i < oldCap ==> oldTab[i] == if i < j then Bin([], false) else oldBins[i]
    {
      MoveBin(h, oldTab, newTab, j);
      j := j + 1;
    }
    MovedAll(oldBins, newTab[..]);
  }

  /** Once every old bucket has been moved, the doubled table is `Split(bins)`. */
  lemma MovedAll<K, V>(bins: seq<Bin<K, V>>, s: seq<Bin<K, V>>)
    requires |bins| > 0 && |s| == 2 * |bins|
    requires forall i :: 0 <= i < 2 * |bins| ==> s[i] == MovedAt(bins, |bins|, i)
    ensures s == Split(bins)
  {
    var n := |bins|;
    forall i | 0 <= i < 2 * n
      ensures s[i] == Split(bins)[i]
    {
      if i >= n {
        assert s[(i - n) + n] == Split(bins)[(i - n) + n];
      }
    }
  }

  /** The table length `resize` moves to from length `oldCap` (0 for no table) and threshold `oldThr`. */
  function GrownCapacity(oldCap: nat, oldThr: int): (r: int)
    ensures r > 0
  {
    if oldCap >= MaximumCapacity then oldCap
    else if oldCap > 0 then 2 * oldCap
    else if oldThr > 0 then oldThr
    else DefaultInitialCapacity
  }

  /** The threshold `resize` leaves, for load factor `lf`. */
  function GrownThreshold(oldCap: nat, oldThr: int, lf: real): int
  {
    if oldCap >= MaximumCapacity then IntMax
    else
      var newCap := GrownCapacity(oldCap, oldThr);
      var newThr :=
        if oldCap > 0 && newCap < MaximumCapacity && oldCap >= DefaultInitialCapacity then JavaInt(2 * oldThr)
        else if oldCap == 0 && oldThr <= 0 then IntCast(DefaultLoadFactor * DefaultInitialCapacity as real)
        else 0;
      if newThr != 0 then newThr
      else
        var ft := newCap as real * lf;
        if newCap < MaximumCapacity && ft < MaximumCapacity as real then IntCast(ft) else IntMax
  }

  /** The buckets after `resize`: a fresh empty table, the same table at the maximum, or the doubled split. */
  function GrownBins<K, V>(bins: seq<Bin<K, V>>, oldThr: int): seq<Bin<K, V>>
  {
    if |bins| == 0 then EmptyBins(GrownCapacity(0, oldThr))
    else if |bins| >= MaximumCapacity then bins
    else Split(bins)
  }

  /**
   * One direction of the map. `contents` is the map the table stands for;
   * `keyHash` is the hasher applied to a key.
   */
  class Nodes<K(==), V(==)> {
    const loadFactor: real
    const hasher: Hashing.Hasher
    const keyHash: Option<K> -> int
    var size: int
    var modCount: int
    var threshold: int
    var table: array?<Bin<K, V>>
    ghost var contents: map<Option<K>, Option<V>>

    /** The table invariant, apart from `size`. Before the first `put` there is no table and `threshold` is the capacity to allocate. */
    ghost predicate Sound()
      reads this, table
    {
      (table == null ==> contents == map[] && IsPow2(threshold) && threshold <= MaximumCapacity)
      && (table != null ==>
            IsPow2(table.Length) && table.Length <= MaximumCapacity
            && Holds(keyHash, table[..], contents, 1))
    }

    ghost predicate Valid()
      reads this, table
    {
      Sound() && size == |contents|
    }

    function Capacity(): nat
      reads this
    {
      if table == null then 0 else table.Length
    }

    ghost function Bins(): seq<Bin<K, V>>
      reads this, table
    {
      if table == null then [] else table[..]
    }

    /** The threshold is `tableSizeFor(initialCapacity)`; the table is allocated by the first `put`. */
    constructor (initialCapacity: bv32, loadFactor: real, hasher: Hashing.Hasher, hashCode: K -> bv32)
      ensures Valid()
      ensures table == null && contents == map[] && size == 0 && modCount == 0
      ensures threshold == Signed(TableSizeFor(initialCapacity))
      ensures this.loadFactor == loadFactor && this.hasher == hasher
      ensures forall k :: keyHash(k) == HashOf(hasher, hashCode, k)
    {
      var cap := TableSizeFor(initialCapacity);
      PowerOfTwoAsInt(cap);
      threshold := Signed(cap);
      this.loadFactor := loadFactor;
      this.hasher := hasher;
      keyHash := k => HashOf(hasher, hashCode, k);
      size := 0;
      modCount := 0;
      table := null;
      contents := map[];
    }

    /** `get`: the node holding `key`, or null. */
    method Get(key: Option<K>) returns (r: Option<Node<K, V>>)
      requires Valid()
      ensures r.Some? <==> key in contents
      ensures r.Some? ==> r.value == Node(keyHash(key), key, contents[key])
    {
      var hash := keyHash(key);
      if table == null || table.Length == 0 {
        return None;
      }
      var chain := table[Index(hash, table.Length)].chain;
      var t := FindNode(chain, hash, key);
      BinSearch(keyHash, table[..], contents, key, t);
      if t < 0 {
        return None;
      }
      return Some(chain[t]);
    }

    /**
     * `put`: on a present key, answers its old value (wrapped, so a null
     * value is told apart from absence) and overwrites it unless
     * `onlyIfAbsent`; on an absent key, appends a node, treeifies a bucket
     * that already had `TREEIFY_THRESHOLD` nodes, counts a modification and
     * resizes past the threshold, answering null.
     */
    method Put(key: Option<K>, value: Option<V>, onlyIfAbsent: bool) returns (r: Option<Option<V>>)
      requires Valid()
      modifies this, table
      ensures Valid() && (table == old(table) || fresh(table))
      ensures r == if key in old(contents) then Some(old(contents)[key]) else None
      ensures contents == if key in old(contents) && onlyIfAbsent then old(contents) else old(contents)[key := value]
      ensures modCount == old(modCount) + (if key in old(contents) then 0 else 1)
      ensures key in old(contents) ==> table == old(table) && KeyLayout(Bins()) == old(KeyLayout(Bins()))
    {
      var hash := keyHash(key);
      if table == null || table.Length == 0 {
        Resize();
      }
      var n := table.Length;
      var i := Index(hash, n);
      var b := table[i];
      var t := FindNode(b.chain, hash, key);
      BinSearch(keyHash, table[..], contents, key, t);
      if t >= 0 {
        r := Some(b.chain[t].value);
        if !onlyIfAbsent {
          BinSet(keyHash, table[..], contents, key, value, t);
          table[i] := Bin(b.chain[t := Node(hash, key, value)], b.treed);
          contents := contents[key := value];
        }
        return;
      }
      Link(key, value, hash, i, b);
      r := None;
    }

    /**
     * The end of `put` for an absent key: links a node for it at the end of
     * bucket `i` (which was `b`), treeifies a plain list that already had
     * `TREEIFY_THRESHOLD` nodes, counts a modification and resizes once the
     * size passes the threshold.
     */
    method Link(key: Option<K>, value: Option<V>, hash: int, i: int, b: Bin<K, V>)
      requires Valid() && table != null && key !in contents
      requires hash == keyHash(key) && i == Index(hash, table.Length) && b == table[i]
      modifies this, table
      ensures Valid() && (table == old(table) || fresh(table))
      ensures contents == old(contents)[key := value]
      ensures modCount == old(modCount) + 1
    {
      BinAppend(keyHash, table[..], contents, key, value);
      table[i] := Bin(b.chain + [Node(hash, key, value)], b.treed);
      contents := contents[key := value];
      if !b.treed && |b.chain| >= TreeifyThreshold {
        Treeify(hash);
      }
      Count();
    }

    /** The last steps of `put` for an absent key: counts the modification and the mapping, and resizes past the threshold. */
    method Count()
      requires Sound() && size + 1 == |contents|
      modifies this, table
      ensures Valid() && (table == old(table) || fresh(table))
      ensures contents == old(contents) && modCount == old(modCount) + 1
    {
      modCount := modCount + 1;
      size := size + 1;
      if size > threshold {
        Resize();
      }
    }

    /** `e.value = value` on the node of a present key, as `replace` does: no structural change. */
    method SetValue(key: Option<K>, value: Option<V>)
      requires Valid() && key in contents
      modifies this, table
      ensures Valid()
      ensures contents == old(contents)[key := value]
      ensures modCount == old(modCount) && size == old(size) && threshold == old(threshold)
      ensures table == old(table) && KeyLayout(Bins()) == old(KeyLayout(Bins()))
    {
      var hash := keyHash(key);
      var i := Index(hash, table.Length);
      var b := table[i];
      var t := FindNode(b.chain, hash, key);
      BinSearch(keyHash, table[..], contents, key, t);
      BinSet(keyHash, table[..], contents, key, value, t);
      table[i] := Bin(b.chain[t := Node(hash, key, value)], b.treed);
      contents := contents[key := value];
    }

    /**
     * `remove`: unlinks the node of `key` when there is one and, with
     * `matchValue`, its value equals `value`; counts a modification and
     * answers the node. Otherwise nothing changes and the answer is null.
     */
    method Remove(key: Option<K>, value: Option<V>, matchValue: bool, movable: bool) returns (r: Option<Node<K, V>>)
      requires Valid()
      modifies this, table
      ensures Valid() && table == old(table) && threshold == old(threshold)
      ensures var hit := key in old(contents) && (!matchValue || old(contents)[key] == value);
        (r.Some? <==> hit)
        && (hit ==> r.value == Node(keyHash(key), key, old(contents)[key])
                    && contents == old(contents) - {key} && modCount == old(modCount) + 1
                    && var i := Index(keyHash(key), table.Length);
                       Bins() == old(Bins())[i := Bins()[i]] && Bins()[i].chain == Without(old(Bins())[i].chain, key))
        && (!hit ==> contents == old(contents) && modCount == old(modCount) && Bins() == old(Bins()))
    {
      var hash := keyHash(key);
      if table == null || table.Length == 0 {
        return None;
      }
      var i := Index(hash, table.Length);
      var b := table[i];
      var t := FindNode(b.chain, hash, key);
      BinSearch(keyHash, table[..], contents, key, t);
      if t < 0 {
        return None;
      }
      var node := b.chain[t];
      if matchValue && node.value != value {
        return None;
      }
      Unlink(key, i, t);
      return Some(node);
    }

    /** The unlinking steps of `remove`, for node `t` of bucket `i`, which holds `key`. */
    method Unlink(key: Option<K>, i: int, t: int)
      requires Valid() && table != null && key in contents && i == Index(keyHash(key), table.Length)
      requires 0 <= t < |table[i].chain| && table[i].chain[t].key == key
      modifies this, table
      ensures Valid() && table == old(table) && threshold == old(threshold)
      ensures contents == old(contents) - {key} && modCount == old(modCount) + 1
      ensures Bins() == old(Bins())[i := Bins()[i]] && Bins()[i].chain == Without(old(Bins())[i].chain, key)
    {
      var b := table[i];
      var rest := b.chain[..t] + b.chain[t + 1..];
      BinUnlink(keyHash, table[..], contents, key, t);
      Detach(key, i, Bin(rest, b.treed && |rest| > 0));
    }

    /** The stores of an unlink: bucket `i` replaced, one mapping fewer, one more modification. */
    method Detach(ghost key: Option<K>, i: int, b: Bin<K, V>)
      requires table != null && 0 <= i < table.Length
      modifies this, table
      ensures table == old(table) && table[..] == old(table[..])[i := b]
      ensures contents == old(contents) - {key} && size == old(size) - 1 && modCount == old(modCount) + 1
      ensures threshold == old(threshold)
    {
      table[i] := b;
      contents := contents - {key};
      modCount := modCount + 1;
      size := size - 1;
    }

    /** `clear`: always a modification; the buckets are nulled when there is something to remove. */
    method Clear()
      requires Valid()
      modifies this, table
      ensures Valid() && table == old(table) && threshold == old(threshold)
      ensures contents == map[] && size == 0 && modCount == old(modCount) + 1
      ensures Bins() == EmptyBins(Capacity())
    {
      modCount := modCount + 1;
      var tab := table;
      if tab != null && size > 0 {
        size := 0;
        var i := 0;
        while i < tab.Length
          modifies tab
          invariant 0 <= i <= tab.Length
          invariant forall j :: 0 <= j < i ==> tab[j] == Bin([], false)
        {
          tab[i] := Bin([], false);
          i := i + 1;
        }
        assert tab[..] == EmptyBins(tab.Length);
        EmptyHolds<K, V>(keyHash, tab.Length);
      } else if tab != null {
        assert contents == map[];
        NothingHeld(keyHash, tab[..]);
      }
      contents := map[];
    }

    /**
     * `resize`: allocates the table at `threshold` capacity, or doubles it
     * moving each node of old bucket `j` to bucket `j` or `j + oldCap`, or
     * at the maximum capacity only lifts the threshold. The old buckets are
     * nulled as they are moved.
     */
    method Resize()
      requires Sound()
      modifies this, table
      ensures Sound() && (table == old(table) || fresh(table))
      ensures contents == old(contents) && size == old(size) && modCount == old(modCount)
      ensures Bins() == GrownBins(old(Bins()), old(threshold))
      ensures threshold == GrownThreshold(old(Capacity()), old(threshold), loadFactor)
      ensures old(Capacity()) >= MaximumCapacity ==> table == old(table)
      ensures old(Capacity()) < MaximumCapacity ==> fresh(table)
      ensures old(table) != null && old(Capacity()) < MaximumCapacity ==>
        forall j :: 0 <= j < old(table).Length ==> old(table)[j] == Bin([], false)
    {
      var oldTab := table;
      var oldCap := if oldTab == null then 0 else oldTab.Length;
      var oldThr := threshold;
      if oldCap >= MaximumCapacity {
        threshold := IntMax;
        return;
      }
      var newCap := GrownCapacity(oldCap, oldThr);
      threshold := GrownThreshold(oldCap, oldThr, loadFactor);
      var newTab := new Bin<K, V>[newCap](_ => Bin([], false));
      table := newTab;
      if oldTab == null {
        assert newTab[..] == EmptyBins(newCap);
        EmptyHolds<K, V>(keyHash, newCap);
        return;
      }
      PowerOfTwoAsInt(0x4000_0000);
      Pow2Gap(oldCap, MaximumCapacity);
      DoubleIsPow2(oldCap);
      ghost var oldBins := oldTab[..];
      PlacedBins(keyHash, oldBins, contents);
      Transfer(keyHash, oldTab, newTab);
      SplitKeepsTable(keyHash, oldBins, contents);
    }

    /**
     * `treeify(hash)`: a table below `MIN_TREEIFY_CAPACITY` is resized
     * instead; otherwise the bucket of `hash`, when not null, becomes a tree
     * bin holding the same nodes.
     */
    method Treeify(hash: int)
      requires Sound()
      modifies this, table
      ensures Sound() && (table == old(table) || fresh(table))
      ensures contents == old(contents) && size == old(size) && modCount == old(modCount)
      ensures old(Capacity()) < MinTreeifyCapacity ==>
        Bins() == GrownBins(old(Bins()), old(threshold)) && threshold == GrownThreshold(old(Capacity()), old(threshold), loadFactor)
      ensures old(Capacity()) >= MinTreeifyCapacity ==>
        table == old(table) && threshold == old(threshold)
        && var i := Index(hash, table.Length);
           Bins() == old(Bins())[i := Bin(old(Bins())[i].chain, |old(Bins())[i].chain| > 0)]
    {
      if table == null || table.Length < MinTreeifyCapacity {
        Resize();
      } else {
        var i := Index(hash, table.Length);
        var b := table[i];
        PlacedBins(keyHash, table[..], contents);
        if |b.chain| > 0 {
          TreeifyHolds(keyHash, table[..], contents, i);
          table[i] := Bin(b.chain, true);
          assert table[..] == old(table[..])[i := Bin(b.chain, true)];
        }
      }
    }
  }
}
