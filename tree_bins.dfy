/**
 * `HashedBidirectionalMap.TreeNode`: the red-black tree a bucket becomes
 * once its chain grows long. The tree is held as an immutable value, so
 * the parent, `prev` and `next` links that `checkInvariants` compares are
 * right by construction; the bucket's `next` chain is kept beside it.
 * Keys are taken to be non-`Comparable`, so equal hashes are ordered by
 * `tieBreakOrder`, which is the parameter `tie` (true for -1).
 */
module TreeBins {
  import opened Wrappers
  import opened HashedNodes

  /** A tree bin's tree: `Empty` is a null child. */
  datatype RBTree<K, V> = Empty | Branch(red: bool, left: RBTree<K, V>, node: Node<K, V>, right: RBTree<K, V>)

  /** A tree bin: the tree and the bucket's `next` chain through the same nodes. */
  datatype TreeBin<K, V> = TreeBin(root: RBTree<K, V>, chain: seq<Node<K, V>>)

  /** The nodes of a tree in order: left subtree, node, right subtree. */
  function Elements<K, V>(t: RBTree<K, V>): seq<Node<K, V>>
  {
    match t
    case Empty => []
    case Branch(_, l, n, rt) => Elements(l) + [n] + Elements(rt)
  }

  /**
   * `checkInvariants`: a left child's hash is not above its parent's, a
   * right child's not below, and no red node has two red children, at
   * every node.
   */
  predicate CheckInvariants<K, V>(t: RBTree<K, V>)
  {
    match t
    case Empty => true
    case Branch(red, l, n, r) =>
      (l.Branch? ==> l.node.hash <= n.hash)
      && (r.Branch? ==> r.node.hash >= n.hash)
      && !(red && l.Branch? && l.red && r.Branch? && r.red)
      && CheckInvariants(l) && CheckInvariants(r)
  }

  /** The colour half of `checkInvariants`. */
  predicate RedOk<K, V>(t: RBTree<K, V>)
  {
    match t
    case Empty => true
    case Branch(red, l, _, r) => !(red && l.Branch? && l.red && r.Branch? && r.red) && RedOk(l) && RedOk(r)
  }

  /** Every node of `s` hashes to at most `h`. */
  ghost predicate AtMost<K, V>(s: seq<Node<K, V>>, h: int)
  {
    forall x :: x in s ==> x.hash <= h
  }

  /** Every node of `s` hashes to at least `h`. */
  ghost predicate AtLeast<K, V>(s: seq<Node<K, V>>, h: int)
  {
    forall x :: x in s ==> x.hash >= h
  }

  /** The order a lookup relies on: every hash in a left subtree is at most the node's, every hash in a right subtree at least. */
  ghost predicate Ordered<K, V>(t: RBTree<K, V>)
  {
    match t
    case Empty => true
    case Branch(_, l, n, r) => AtMost(Elements(l), n.hash) && AtLeast(Elements(r), n.hash) && Ordered(l) && Ordered(r)
  }

  /** On an ordered tree `checkInvariants` reduces to its colour test. */
  lemma {:induction false} OrderedCheck<K, V>(t: RBTree<K, V>)
    requires Ordered(t)
    ensures CheckInvariants(t) <==> RedOk(t)
  {
    match t
    case Empty =>
    case Branch(_, l, n, r) =>
      OrderedCheck(l);
      OrderedCheck(r);
      if l.Branch? {
        assert l.node in Elements(l);
      }
      if r.Branch? {
        assert r.node in Elements(r);
      }
  }

  /**
   * `checkInvariants` compares only parents with children: the tree
   * 5 -> (right) 10 -> (left) 3 passes it, and the lookup for the held
   * node of hash 3 goes left at 5 and misses it.
   */
  lemma {:induction false} CheckInvariantsMissesOrder()
    ensures var three : Node<int, int> := Node(3, Some(3), None);
      var t := Branch(false, Empty, Node(5, Some(5), None), Branch(false, Branch(false, Empty, three, Empty), Node(10, Some(10), None), Empty));
      CheckInvariants(t) && !Ordered(t) && three in Elements(t) && Find(t, 3, Some(3)).None?
  {
    var three : Node<int, int> := Node(3, Some(3), None);
    var right := Branch(false, Branch(false, Empty, three, Empty), Node(10, Some(10), None), Empty);
    assert three in Elements(right);
  }

  /* ---------------- Lookup ---------------- */

  /**
   * `find(h, k, null)`: walks down by hash; at a node of equal hash and a
   * different key it follows the only child, or searches the right subtree
   * and then continues left.
   */
  function Find<K(==), V>(t: RBTree<K, V>, h: int, k: Option<K>): Option<Node<K, V>>
  {
    match t
    case Empty => None
    case Branch(_, pl, p, pr) =>
      if p.hash > h then Find(pl, h, k)
      else if p.hash < h then Find(pr, h, k)
      else if p.key == k then Some(p)
      else if pl.Empty? then Find(pr, h, k)
      else if pr.Empty? then Find(pl, h, k)
      else
        match Find(pr, h, k)
        case Some(q) => Some(q)
        case None => Find(pl, h, k)
  }

  /** Whether the tree holds a node with hash `h` and key `k`. */
  ghost predicate Holds<K, V>(t: RBTree<K, V>, h: int, k: Option<K>)
  {
    exists x :: x in Elements(t) && x.hash == h && x.key == k
  }

  /** What `find` answers is a node of the tree with that hash and key. */
  lemma {:induction false} FindSound<K, V>(t: RBTree<K, V>, h: int, k: Option<K>)
    ensures Find(t, h, k).Some? ==>
      var x := Find(t, h, k).value; x in Elements(t) && x.hash == h && x.key == k
  {
    match t
    case Empty =>
    case Branch(_, l, _, r) =>
      FindSound(l, h, k);
      FindSound(r, h, k);
  }

  /** On an ordered tree `find` misses nothing. */
  lemma {:induction false} FindComplete<K, V>(t: RBTree<K, V>, h: int, k: Option<K>)
    requires Ordered(t)
    ensures Find(t, h, k).Some? <==> Holds(t, h, k)
  {
    FindSound(t, h, k);
    match t
    case Empty =>
    case Branch(_, l, p, r) =>
      FindComplete(l, h, k);
      FindComplete(r, h, k);
      if Holds(t, h, k) {
        var x :| x in Elements(t) && x.hash == h && x.key == k;
        if x in Elements(l) {
          assert Holds(l, h, k);
        } else if x in Elements(r) {
          assert Holds(r, h, k);
        }
      }
  }

  /* ---------------- Tree bins ---------------- */

  /** The tree bin invariant: a non-empty ordered tree through exactly the chain's nodes, keys distinct. */
  ghost predicate Valid<K, V>(b: TreeBin<K, V>)
  {
    b.root.Branch? && Ordered(b.root) && DistinctKeys(b.chain)
    && multiset(Elements(b.root)) == multiset(b.chain)
  }

  /**
   * In a valid tree bin the tree lookup and the chain scan that the table
   * model uses agree: `find` answers exactly the chain's node of that hash
   * and key.
   */
  lemma {:induction false} TreeFindAgreesWithChain<K, V>(b: TreeBin<K, V>, h: int, k: Option<K>)
    requires Valid(b)
    ensures Find(b.root, h, k).Some? <==> exists t :: 0 <= t < |b.chain| && b.chain[t].hash == h && b.chain[t].key == k
    ensures forall t :: 0 <= t < |b.chain| && b.chain[t].hash == h && b.chain[t].key == k ==> Find(b.root, h, k) == Some(b.chain[t])
  {
    FindComplete(b.root, h, k);
    FindSound(b.root, h, k);
    forall t | 0 <= t < |b.chain| && b.chain[t].hash == h && b.chain[t].key == k
      ensures Find(b.root, h, k) == Some(b.chain[t])
    {
      assert b.chain[t] in multiset(b.chain);
      assert b.chain[t] in Elements(b.root);
      var x := Find(b.root, h, k).value;
      assert x in multiset(Elements(b.root));
      var u :| 0 <= u < |b.chain| && b.chain[u] == x;
    }
    if Find(b.root, h, k).Some? {
      var x := Find(b.root, h, k).value;
      assert x in multiset(Elements(b.root));
      var u :| 0 <= u < |b.chain| && b.chain[u] == x;
    }
  }

  /* ---------------- Insertion ---------------- */

  /** The descent rule of `treeify` and `putTreeVal`: by hash, then by `tieBreakOrder`. */
  predicate GoesLeft<K, V>(x: Node<K, V>, p: Node<K, V>, tie: (Option<K>, Option<K>) -> bool)
  {
    if p.hash > x.hash then true else if p.hash < x.hash then false else tie(x.key, p.key)
  }

  /**
   * Links `x` as a new leaf where the descent ends, without recolouring:
   * the in-order placement that the balanced insertion `Ins` is proved to
   * keep. Its colour is the red of `balanceInsertion`'s new node.
   */
  function Place<K, V>(t: RBTree<K, V>, x: Node<K, V>, tie: (Option<K>, Option<K>) -> bool): (r: RBTree<K, V>)
    ensures r.Branch?
    ensures t.Branch? ==> r.red == t.red && r.node == t.node
  {
    match t
    case Empty => Branch(true, Empty, x, Empty)
    case Branch(c, l, p, rt) =>
      if GoesLeft(x, p, tie) then Branch(c, Place(l, x, tie), p, rt) else Branch(c, l, p, Place(rt, x, tie))
  }

  /** The node `x` is linked under: the last node of the descent. */
  function PlaceParent<K, V>(t: RBTree<K, V>, x: Node<K, V>, tie: (Option<K>, Option<K>) -> bool): Node<K, V>
    requires t.Branch?
  {
    var child := if GoesLeft(x, t.node, tie) then t.left else t.right;
    if child.Empty? then t.node else PlaceParent(child, x, tie)
  }

  /** Placing a node splices it into the in-order sequence. */
  lemma {:induction false} PlaceSplice<K, V>(t: RBTree<K, V>, x: Node<K, V>, tie: (Option<K>, Option<K>) -> bool) returns (i: nat)
    ensures i <= |Elements(t)| && Elements(Place(t, x, tie)) == Elements(t)[..i] + [x] + Elements(t)[i..]
  {
    match t
    case Empty =>
      i := 0;
    case Branch(c, l, p, r) =>
      if GoesLeft(x, p, tie) {
        i := PlaceSplice(l, x, tie);
        SpliceInLeft(Elements(l), p, Elements(r), x, i);
      } else {
        var j := PlaceSplice(r, x, tie);
        SpliceInRight(Elements(l), p, Elements(r), x, j);
        i := |Elements(l)| + 1 + j;
      }
  }

  /** Placing a node adds just it to the in-order sequence. */
  lemma PlaceElements<K, V>(t: RBTree<K, V>, x: Node<K, V>, tie: (Option<K>, Option<K>) -> bool)
    ensures multiset(Elements(Place(t, x, tie))) == multiset(Elements(t)) + multiset{x}
  {
    var i := PlaceSplice(t, x, tie);
    SpliceMultiset(Elements(t), x, i);
  }

  lemma SpliceInLeft<T>(a: seq<T>, p: T, b: seq<T>, x: T, j: nat)
    requires j <= |a|
    ensures (a[..j] + [x] + a[j..]) + [p] + b == (a + [p] + b)[..j] + [x] + (a + [p] + b)[j..]
  {
    assert (a + [p] + b)[..j] == a[..j];
    assert (a + [p] + b)[j..] == a[j..] + [p] + b;
  }

  lemma SpliceInRight<T>(a: seq<T>, p: T, b: seq<T>, x: T, j: nat)
    requires j <= |b|
    ensures a + [p] + (b[..j] + [x] + b[j..]) == (a + [p] + b)[..|a| + 1 + j] + [x] + (a + [p] + b)[|a| + 1 + j..]
  {
    assert (a + [p] + b)[..|a| + 1 + j] == a + [p] + b[..j];
    assert (a + [p] + b)[|a| + 1 + j..] == b[j..];
  }

  lemma SpliceMultiset<T>(e: seq<T>, x: T, i: nat)
    requires i <= |e|
    ensures multiset(e[..i] + [x] + e[i..]) == multiset(e) + multiset{x}
  {
    assert e == e[..i] + e[i..];
  }

  /** The nodes of a tree after placing `x` are `x` and the tree's own; the parent is one of them. */
  lemma {:induction false} PlaceMembers<K, V>(t: RBTree<K, V>, x: Node<K, V>, tie: (Option<K>, Option<K>) -> bool)
    ensures forall y :: y in Elements(Place(t, x, tie)) ==> y == x || y in Elements(t)
    ensures t.Branch? ==> PlaceParent(t, x, tie) in Elements(t)
  {
    match t
    case Empty =>
    case Branch(c, l, p, r) =>
      if GoesLeft(x, p, tie) {
        PlaceMembers(l, x, tie);
      } else {
        PlaceMembers(r, x, tie);
      }
  }

  /** Placing a node keeps the hash order. */
  lemma {:induction false} PlaceOrdered<K, V>(t: RBTree<K, V>, x: Node<K, V>, tie: (Option<K>, Option<K>) -> bool)
    requires Ordered(t)
    ensures Ordered(Place(t, x, tie))
  {
    match t
    case Empty =>
    case Branch(c, l, p, r) =>
      if GoesLeft(x, p, tie) {
        PlaceOrdered(l, x, tie);
        PlaceMembers(l, x, tie);
      } else {
        PlaceOrdered(r, x, tie);
        PlaceMembers(r, x, tie);
      }
  }

  /**
   * The tree of `treeify`: the chain's nodes inserted in chain order with
   * `balanceInsertion`, the first as the black root.
   */
  function Treeify<K, V>(c: seq<Node<K, V>>, tie: (Option<K>, Option<K>) -> bool): RBTree<K, V>
  {
    if |c| == 0 then Empty else Insert(Treeify(c[..|c| - 1], tie), c[|c| - 1], tie)
  }

  /** `moveRootToFront`, when the root's node is in the chain. */
  function RootToFront<K(==), V(==)>(root: RBTree<K, V>, c: seq<Node<K, V>>): (r: seq<Node<K, V>>)
  {
    if root.Branch? && root.node in c then MoveRootToFront(c, Position(c, root.node)) else c
  }

  /** Moving the root to the front keeps the chain's nodes and distinct keys, and puts the root's node first. */
  lemma RootToFrontKeeps<K, V>(root: RBTree<K, V>, c: seq<Node<K, V>>)
    requires DistinctKeys(c)
    ensures multiset(RootToFront(root, c)) == multiset(c) && DistinctKeys(RootToFront(root, c))
    ensures root.Branch? && root.node in c ==> RootToFront(root, c)[0] == root.node
  {
    if root.Branch? && root.node in c {
      MoveRootKeepsDistinct(c, Position(c, root.node));
    }
  }

  /**
   * `treeify` of a chain with distinct keys: a valid tree bin that keeps the
   * red-black rules and passes `checkInvariants`, whose chain, after
   * `moveRootToFront`, starts at the root.
   */
  lemma {:induction false} TreeifyValid<K, V>(c: seq<Node<K, V>>, tie: (Option<K>, Option<K>) -> bool)
    requires |c| > 0 && DistinctKeys(c)
    ensures var root := Treeify(c, tie);
      Valid(TreeBin(root, RootToFront(root, c))) && CheckInvariants(root) && RedBlack(root)
      && RootToFront(root, c)[0] == root.node
  {
    var root := Treeify(c, tie);
    TreeifyKeeps(c, tie);
    NoRedRedRedOk(root);
    OrderedCheck(root);
    assert root.node in multiset(Elements(root));
    assert root.node in multiset(c);
    RootToFrontKeeps(root, c);
  }

  /** The tree of `treeify` holds exactly the chain's nodes, is hash-ordered and keeps the red-black rules. */
  lemma {:induction false} TreeifyKeeps<K, V>(c: seq<Node<K, V>>, tie: (Option<K>, Option<K>) -> bool)
    ensures multiset(Elements(Treeify(c, tie))) == multiset(c)
    ensures Ordered(Treeify(c, tie)) && RedBlack(Treeify(c, tie))
    ensures |c| > 0 ==> Treeify(c, tie).Branch?
  {
    if |c| > 0 {
      var init := c[..|c| - 1];
      TreeifyKeeps(init, tie);
      InsElements(Treeify(init, tie), c[|c| - 1], tie);
      PlaceElements(Treeify(init, tie), c[|c| - 1], tie);
      InsOrdered(Treeify(init, tie), c[|c| - 1], tie);
      InsertRedBlack(Treeify(init, tie), c[|c| - 1], tie);
      LastMultiset(c);
    }
  }

  /**
   * The probe of `putTreeVal`: the node of hash `h` and key `k` met on the
   * descent, or found by searching both subtrees of the first node of equal
   * hash and a different key (once: `searched`).
   */
  function Search<K(==), V>(t: RBTree<K, V>, h: int, k: Option<K>, tie: (Option<K>, Option<K>) -> bool, searched: bool): Option<Node<K, V>>
  {
    match t
    case Empty => None
    case Branch(_, l, p, r) =>
      if p.hash > h then Search(l, h, k, tie, searched)
      else if p.hash < h then Search(r, h, k, tie, searched)
      else if p.key == k then Some(p)
      else
        var q := if searched then None else if Find(l, h, k).Some? then Find(l, h, k) else Find(r, h, k);
        if q.Some? then q
        else if tie(k, p.key) then Search(l, h, k, tie, true)
        else Search(r, h, k, tie, true)
  }

  /** On an ordered tree the probe finds exactly the held node, once the searched part is known not to hold it. */
  lemma {:induction false} SearchExact<K, V>(t: RBTree<K, V>, h: int, k: Option<K>, tie: (Option<K>, Option<K>) -> bool, searched: bool)
    requires Ordered(t) && (searched ==> !Holds(t, h, k))
    ensures Search(t, h, k, tie, searched).Some? <==> Holds(t, h, k)
    ensures Search(t, h, k, tie, searched).Some? ==>
      var x := Search(t, h, k, tie, searched).value; x in Elements(t) && x.hash == h && x.key == k
  {
    match t
    case Empty =>
    case Branch(_, l, p, r) =>
      FindComplete(l, h, k);
      FindComplete(r, h, k);
      FindSound(l, h, k);
      FindSound(r, h, k);
      assert Holds(l, h, k) ==> Holds(t, h, k);
      assert Holds(r, h, k) ==> Holds(t, h, k);
      if Holds(t, h, k) {
        var x :| x in Elements(t) && x.hash == h && x.key == k;
        assert x in Elements(l) || x == p || x in Elements(r);
      }
      if p.hash > h {
        SearchExact(l, h, k, tie, searched);
      } else if p.hash < h {
        SearchExact(r, h, k, tie, searched);
      } else if p.key != k {
        if !Holds(l, h, k) && !Holds(r, h, k) {
          SearchExact(l, h, k, tie, true);
          SearchExact(r, h, k, tie, true);
        }
      }
  }

  /** Inserts `x` into the chain right after `p` (`xp.next = x`). */
  function InsertAfter<K(==), V(==)>(c: seq<Node<K, V>>, p: Node<K, V>, x: Node<K, V>): (r: seq<Node<K, V>>)
  {
    var i := Position(c, p);
    c[..i + 1] + [x] + c[i + 1..]
  }

  /** The first position of `p` in the chain, -1 when absent. */
  function Position<K(==), V(==)>(c: seq<Node<K, V>>, p: Node<K, V>): (i: int)
    ensures -1 <= i < |c|
    ensures 0 <= i ==> c[i] == p
    ensures i < 0 <==> p !in c
  {
    if |c| == 0 then -1
    else if c[0] == p then 0
    else
      var j := Position(c[1..], p);
      if j < 0 then -1 else j + 1
  }

  /**
   * `putTreeVal`: answers the held node of hash `h` and key `k`, leaving
   * the bin alone; otherwise links a new node as a leaf of the tree and
   * right after its tree parent in the chain, rebalances with
   * `balanceInsertion`, moves the new root to the chain's front, and
   * answers null.
   */
  function PutTreeVal<K(==), V(==)>(b: TreeBin<K, V>, h: int, k: Option<K>, v: Option<V>, tie: (Option<K>, Option<K>) -> bool): (r: (Option<Node<K, V>>, TreeBin<K, V>))
    requires b.root.Branch?
  {
    match Search(b.root, h, k, tie, false)
    case Some(q) => (Some(q), b)
    case None =>
      var x := Node(h, k, v);
      var root := Insert(b.root, x, tie);
      (None, TreeBin(root, RootToFront(root, InsertAfter(b.chain, PlaceParent(b.root, x, tie), x))))
  }

  /** In a bin whose nodes' hashes follow their keys, key `k` is held exactly when a node of hash `h` holds it. */
  ghost predicate HashFollowsKey<K, V>(c: seq<Node<K, V>>, h: int, k: Option<K>)
  {
    forall t :: 0 <= t < |c| && c[t].key == k ==> c[t].hash == h
  }

  /**
   * `putTreeVal` on a valid bin answers the node holding `k` when there is
   * one, and otherwise adds exactly the new node to both the tree and the
   * chain, keeping the bin valid; on a red-black tree it keeps the
   * red-black rules, and so `checkInvariants`, with the root first in the
   * chain.
   */
  lemma {:induction false} PutTreeValSpec<K, V>(b: TreeBin<K, V>, h: int, k: Option<K>, v: Option<V>, tie: (Option<K>, Option<K>) -> bool)
    requires Valid(b) && HashFollowsKey(b.chain, h, k)
    ensures var r := PutTreeVal(b, h, k, v, tie);
      (r.0.Some? <==> k in KeysOf(b.chain))
      && (r.0.Some? ==> r.0.value in b.chain && r.0.value.key == k && r.1 == b)
      && (r.0.None? ==> Valid(r.1) && multiset(r.1.chain) == multiset(b.chain) + multiset{Node(h, k, v)})
      && (RedBlack(b.root) ==> RedBlack(r.1.root) && CheckInvariants(r.1.root))
      && (r.0.None? ==> r.1.chain[0] == r.1.root.node)
  {
    PutTreeValFinds(b, h, k, v, tie);
    if PutTreeVal(b, h, k, v, tie).0.None? {
      PutTreeValAdds(b, h, k, v, tie);
    }
    if RedBlack(b.root) {
      PutTreeValChecks(b, h, k, v, tie);
    }
  }

  /** The answer of `putTreeVal`: the node holding `k` exactly when the chain holds `k`. */
  lemma PutTreeValFinds<K, V>(b: TreeBin<K, V>, h: int, k: Option<K>, v: Option<V>, tie: (Option<K>, Option<K>) -> bool)
    requires Valid(b) && HashFollowsKey(b.chain, h, k)
    ensures var r := PutTreeVal(b, h, k, v, tie);
      (r.0.Some? <==> k in KeysOf(b.chain))
      && (r.0.Some? ==> r.0.value in b.chain && r.0.value.key == k && r.1 == b)
  {
    SearchExact(b.root, h, k, tie, false);
    if k in KeysOf(b.chain) {
      var t :| 0 <= t < |b.chain| && b.chain[t].key == k;
      ChainHeld(b, t);
    }
    var r := PutTreeVal(b, h, k, v, tie);
    if r.0.Some? {
      var y := r.0.value;
      assert y in multiset(Elements(b.root));
    }
  }

  /** Every node of a valid bin's chain is held by its tree. */
  lemma ChainHeld<K, V>(b: TreeBin<K, V>, t: int)
    requires Valid(b) && 0 <= t < |b.chain|
    ensures Holds(b.root, b.chain[t].hash, b.chain[t].key)
  {
    assert b.chain[t] in multiset(Elements(b.root));
  }

  /** A new node leaves the bin valid, with exactly that node added to its chain. */
  lemma PutTreeValAdds<K, V>(b: TreeBin<K, V>, h: int, k: Option<K>, v: Option<V>, tie: (Option<K>, Option<K>) -> bool)
    requires Valid(b) && k !in KeysOf(b.chain)
    ensures var r := PutTreeVal(b, h, k, v, tie);
      r.0.None? ==>
        Valid(r.1) && multiset(r.1.chain) == multiset(b.chain) + multiset{Node(h, k, v)} && r.1.chain[0] == r.1.root.node
  {
    var x := Node(h, k, v);
    if Search(b.root, h, k, tie, false).None? {
      var root := Insert(b.root, x, tie);
      InsElements(b.root, x, tie);
      PlaceElements(b.root, x, tie);
      PlaceMembers(b.root, x, tie);
      InsOrdered(b.root, x, tie);
      var p := PlaceParent(b.root, x, tie);
      assert p in multiset(b.chain);
      InsertAfterKeeps(b.chain, p, x);
      var c := InsertAfter(b.chain, p, x);
      RootToFrontKeeps(root, c);
      assert root.node in multiset(Elements(root));
      assert root.node in multiset(c);
    }
  }

  /** `putTreeVal` keeps the red-black rules, and with them `checkInvariants`. */
  lemma PutTreeValChecks<K, V>(b: TreeBin<K, V>, h: int, k: Option<K>, v: Option<V>, tie: (Option<K>, Option<K>) -> bool)
    requires Valid(b) && RedBlack(b.root)
    ensures RedBlack(PutTreeVal(b, h, k, v, tie).1.root) && CheckInvariants(PutTreeVal(b, h, k, v, tie).1.root)
  {
    var x := Node(h, k, v);
    var root := PutTreeVal(b, h, k, v, tie).1.root;
    if Search(b.root, h, k, tie, false).None? {
      InsOrdered(b.root, x, tie);
      InsertRedBlack(b.root, x, tie);
    }
    NoRedRedRedOk(root);
    OrderedCheck(root);
  }

  /** Inserting a node of a fresh key into a chain keeps its keys distinct and adds just that node. */
  lemma {:induction false} InsertAfterKeeps<K, V>(c: seq<Node<K, V>>, p: Node<K, V>, x: Node<K, V>)
    requires DistinctKeys(c) && x.key !in KeysOf(c) && p in c
    ensures DistinctKeys(InsertAfter(c, p, x))
    ensures multiset(InsertAfter(c, p, x)) == multiset(c) + multiset{x}
  {
    var i := Position(c, p);
    var r := InsertAfter(c, p, x);
    InsertAfterIndices(c, i, x);
    assert c == c[..i + 1] + c[i + 1..];
    forall a, b' | 0 <= a < b' < |r|
      ensures r[a].key != r[b'].key
    {
      var sa := if a <= i then a else a - 1;
      var sb := if b' <= i then b' else b' - 1;
      if a == i + 1 {
        assert KeysOf(c)[sb] == r[b'].key;
      } else if b' == i + 1 {
        assert KeysOf(c)[sa] == r[a].key;
      } else {
        assert r[a] == c[sa] && r[b'] == c[sb] && sa < sb;
      }
    }
  }

  /** Where each node of a chain lands once `x` is inserted after position `i`. */
  lemma InsertAfterIndices<K, V>(c: seq<Node<K, V>>, i: int, x: Node<K, V>)
    requires 0 <= i < |c|
    ensures var r := c[..i + 1] + [x] + c[i + 1..];
      |r| == |c| + 1 && r[i + 1] == x
      && (forall a :: 0 <= a <= i ==> r[a] == c[a])
      && (forall a :: i + 1 < a < |r| ==> r[a] == c[a - 1])
  {
  }

  /* ---------------- Rotations ---------------- */

  /**
   * `rotateLeft` at the root of subtree `t`: its right child takes its
   * place. When `t` is the whole tree (no parent) the new root is coloured
   * black. Without a right child nothing changes.
   */
  function RotateLeft<K, V>(t: RBTree<K, V>, isRoot: bool): RBTree<K, V>
  {
    if t.Branch? && t.right.Branch? then
      var r := t.right;
      Branch(if isRoot then false else r.red, Branch(t.red, t.left, t.node, r.left), r.node, r.right)
    else t
  }

  /** `rotateRight`, the mirror image of `rotateLeft`. */
  function RotateRight<K, V>(t: RBTree<K, V>, isRoot: bool): RBTree<K, V>
  {
    if t.Branch? && t.left.Branch? then
      var l := t.left;
      Branch(if isRoot then false else l.red, l.left, l.node, Branch(t.red, l.right, t.node, t.right))
    else t
  }

  /** A left rotation keeps the in-order sequence; at the root it leaves a black root. */
  lemma {:induction false} RotateLeftKeeps<K, V>(t: RBTree<K, V>, isRoot: bool)
    ensures Elements(RotateLeft(t, isRoot)) == Elements(t)
    ensures isRoot && t.Branch? && t.right.Branch? ==> !RotateLeft(t, isRoot).red
  {
  }

  /** A left rotation keeps the hash order. */
  lemma {:induction false} RotateLeftOrdered<K, V>(t: RBTree<K, V>, isRoot: bool)
    requires Ordered(t)
    ensures Ordered(RotateLeft(t, isRoot))
  {
  }

  /** A right rotation keeps the in-order sequence; at the root it leaves a black root. */
  lemma {:induction false} RotateRightKeeps<K, V>(t: RBTree<K, V>, isRoot: bool)
    ensures Elements(RotateRight(t, isRoot)) == Elements(t)
    ensures isRoot && t.Branch? && t.left.Branch? ==> !RotateRight(t, isRoot).red
  {
  }

  /** A right rotation keeps the hash order. */
  lemma {:induction false} RotateRightOrdered<K, V>(t: RBTree<K, V>, isRoot: bool)
    requires Ordered(t)
    ensures Ordered(RotateRight(t, isRoot))
  {
  }

  /**
   * A rotation on its own does not keep the colour test of
   * `checkInvariants`: rotating a red node whose left child is red and
   * whose right child is black with a red left child leaves a red node with
   * two red children. The rebalancing recolours before it rotates.
   */
  lemma {:induction false} RotationAloneBreaksColourTest()
    ensures var a : Node<int, int> := Node(1, Some(1), None);
      var p : Node<int, int> := Node(2, Some(2), None);
      var b : Node<int, int> := Node(3, Some(3), None);
      var r : Node<int, int> := Node(4, Some(4), None);
      var t := Branch(true, Branch(true, Empty, a, Empty), p, Branch(false, Branch(true, Empty, b, Empty), r, Empty));
      Ordered(t) && CheckInvariants(t) && !CheckInvariants(RotateLeft(t, false))
  {
  }

  /* ---------------- Insertion balancing ---------------- */

  predicate IsRed<K, V>(t: RBTree<K, V>)
  {
    t.Branch? && t.red
  }

  /** The tree with its root coloured black. */
  function Blacken<K, V>(t: RBTree<K, V>): (r: RBTree<K, V>)
    ensures Elements(r) == Elements(t) && !IsRed(r)
  {
    if t.Branch? then Branch(false, t.left, t.node, t.right) else t
  }

  /** The number of black nodes on the way down the left edge. */
  function BlackHeight<K, V>(t: RBTree<K, V>): nat
  {
    match t
    case Empty => 0
    case Branch(red, l, _, _) => BlackHeight(l) + if red then 0 else 1
  }

  /** Every way down from a node to a null child meets the same number of black nodes. */
  predicate BlackBalanced<K, V>(t: RBTree<K, V>)
  {
    match t
    case Empty => true
    case Branch(_, l, _, r) => BlackHeight(l) == BlackHeight(r) && BlackBalanced(l) && BlackBalanced(r)
  }

  /** No red node has a red child. */
  predicate NoRedRed<K, V>(t: RBTree<K, V>)
  {
    match t
    case Empty => true
    case Branch(red, l, _, r) => !(red && (IsRed(l) || IsRed(r))) && NoRedRed(l) && NoRedRed(r)
  }

  /** The red-black rules `balanceInsertion` restores: no red node with a red child, balanced black heights, a black root. */
  predicate RedBlack<K, V>(t: RBTree<K, V>)
  {
    NoRedRed(t) && BlackBalanced(t) && !IsRed(t)
  }

  /** A red node with a red child breaks the colour test only at its root: both subtrees keep the rules and are not both red. */
  predicate Infringed<K, V>(t: RBTree<K, V>)
  {
    t.Branch? && NoRedRed(t.left) && NoRedRed(t.right) && !(IsRed(t.left) && IsRed(t.right))
  }

  /** The red-black rules imply the colour test of `checkInvariants`. */
  lemma {:induction false} NoRedRedRedOk<K, V>(t: RBTree<K, V>)
    requires NoRedRed(t)
    ensures RedOk(t)
  {
    match t
    case Empty =>
    case Branch(_, l, _, r) =>
      NoRedRedRedOk(l);
      NoRedRedRedOk(r);
  }

  /**
   * One pass of the `balanceInsertion` loop at the grandparent `p` of a red
   * node, when the new node went into the left subtree `l`: if `l` is red
   * with a red child, a red uncle `r` turns black with `l` while `p` turns
   * red; otherwise an inner red child is first rotated outward
   * (`rotateLeft` at `l`), then `l`'s root turns black, `p` red, and `p`
   * rotates right.
   */
  function FixLeft<K, V>(c: bool, l: RBTree<K, V>, p: Node<K, V>, r: RBTree<K, V>): RBTree<K, V>
  {
    if IsRed(l) && (IsRed(l.left) || IsRed(l.right)) then
      if IsRed(r) then Branch(true, Blacken(l), p, Blacken(r))
      else
        var l' := if IsRed(l.right) then RotateLeft(l, false) else l;
        RotateRight(Branch(true, Blacken(l'), p, r), false)
    else Branch(c, l, p, r)
  }

  /** The mirror image of `FixLeft`, for a new node in the right subtree. */
  function FixRight<K, V>(c: bool, l: RBTree<K, V>, p: Node<K, V>, r: RBTree<K, V>): RBTree<K, V>
  {
    if IsRed(r) && (IsRed(r.left) || IsRed(r.right)) then
      if IsRed(l) then Branch(true, Blacken(l), p, Blacken(r))
      else
        var r' := if IsRed(r.left) then RotateRight(r, false) else r;
        RotateLeft(Branch(true, l, p, Blacken(r')), false)
    else Branch(c, l, p, r)
  }

  /**
   * Links `x` as a red leaf where the descent ends, and applies the
   * `balanceInsertion` passes on the way back up to the root.
   */
  function Ins<K, V>(t: RBTree<K, V>, x: Node<K, V>, tie: (Option<K>, Option<K>) -> bool): RBTree<K, V>
  {
    match t
    case Empty => Branch(true, Empty, x, Empty)
    case Branch(c, l, p, r) =>
      if GoesLeft(x, p, tie) then FixLeft(c, Ins(l, x, tie), p, r) else FixRight(c, l, p, Ins(r, x, tie))
  }

  /** Linking `x` and `balanceInsertion`: the fix-ups, then a black root (the first node of a tree is the black root itself). */
  function Insert<K, V>(t: RBTree<K, V>, x: Node<K, V>, tie: (Option<K>, Option<K>) -> bool): (r: RBTree<K, V>)
    ensures r.Branch? && !r.red
  {
    Blacken(Ins(t, x, tie))
  }

  /** A fix-up pass keeps the in-order sequence. */
  lemma FixLeftElements<K, V>(c: bool, l: RBTree<K, V>, p: Node<K, V>, r: RBTree<K, V>)
    ensures Elements(FixLeft(c, l, p, r)) == Elements(l) + [p] + Elements(r)
  {
    if IsRed(l) && (IsRed(l.left) || IsRed(l.right)) && !IsRed(r) {
      var l' := if IsRed(l.right) then RotateLeft(l, false) else l;
      RotateLeftKeeps(l, false);
      RotateRightKeeps(Branch(true, Blacken(l'), p, r), false);
    }
  }

  /** A fix-up pass keeps the in-order sequence. */
  lemma FixRightElements<K, V>(c: bool, l: RBTree<K, V>, p: Node<K, V>, r: RBTree<K, V>)
    ensures Elements(FixRight(c, l, p, r)) == Elements(l) + [p] + Elements(r)
  {
    if IsRed(r) && (IsRed(r.left) || IsRed(r.right)) && !IsRed(l) {
      var r' := if IsRed(r.left) then RotateRight(r, false) else r;
      RotateRightKeeps(r, false);
      RotateLeftKeeps(Branch(true, l, p, Blacken(r')), false);
    }
  }

  /** Balanced insertion puts the new node at the same place of the in-order sequence as plain linking does. */
  lemma {:induction false} InsElements<K, V>(t: RBTree<K, V>, x: Node<K, V>, tie: (Option<K>, Option<K>) -> bool)
    ensures Elements(Ins(t, x, tie)) == Elements(Place(t, x, tie))
    ensures Elements(Insert(t, x, tie)) == Elements(Place(t, x, tie))
  {
    match t
    case Empty =>
    case Branch(c, l, p, r) =>
      if GoesLeft(x, p, tie) {
        InsElements(l, x, tie);
        FixLeftElements(c, Ins(l, x, tie), p, r);
      } else {
        InsElements(r, x, tie);
        FixRightElements(c, l, p, Ins(r, x, tie));
      }
  }

  /** A fix-up pass keeps the hash order. */
  lemma FixLeftOrdered<K, V>(c: bool, l: RBTree<K, V>, p: Node<K, V>, r: RBTree<K, V>)
    requires Ordered(Branch(c, l, p, r))
    ensures Ordered(FixLeft(c, l, p, r))
  {
    if IsRed(l) && (IsRed(l.left) || IsRed(l.right)) && !IsRed(r) {
      var l' := if IsRed(l.right) then RotateLeft(l, false) else l;
      RotateLeftKeeps(l, false);
      RotateLeftOrdered(l, false);
      assert Ordered(Branch(true, Blacken(l'), p, r));
      RotateRightOrdered(Branch(true, Blacken(l'), p, r), false);
    }
  }

  /** A fix-up pass keeps the hash order. */
  lemma FixRightOrdered<K, V>(c: bool, l: RBTree<K, V>, p: Node<K, V>, r: RBTree<K, V>)
    requires Ordered(Branch(c, l, p, r))
    ensures Ordered(FixRight(c, l, p, r))
  {
    if IsRed(r) && (IsRed(r.left) || IsRed(r.right)) && !IsRed(l) {
      var r' := if IsRed(r.left) then RotateRight(r, false) else r;
      RotateRightKeeps(r, false);
      RotateRightOrdered(r, false);
      assert Ordered(Branch(true, l, p, Blacken(r')));
      RotateLeftOrdered(Branch(true, l, p, Blacken(r')), false);
    }
  }

  /** Balanced insertion keeps the hash order. */
  lemma {:induction false} InsOrdered<K, V>(t: RBTree<K, V>, x: Node<K, V>, tie: (Option<K>, Option<K>) -> bool)
    requires Ordered(t)
    ensures Ordered(Ins(t, x, tie)) && Ordered(Insert(t, x, tie))
  {
    PlaceOrdered(t, x, tie);
    match t
    case Empty =>
    case Branch(c, l, p, r) =>
      if GoesLeft(x, p, tie) {
        InsOrdered(l, x, tie);
        InsElements(l, x, tie);
        FixLeftOrdered(c, Ins(l, x, tie), p, r);
      } else {
        InsOrdered(r, x, tie);
        InsElements(r, x, tie);
        FixRightOrdered(c, l, p, Ins(r, x, tie));
      }
  }

  /**
   * A fix-up pass at a node whose left subtree has received the new node:
   * black heights stay balanced and unchanged; below a black node the
   * colour rule is restored, and a red node is at worst infringed at its root.
   */
  lemma FixLeftColours<K, V>(c: bool, l: RBTree<K, V>, p: Node<K, V>, r: RBTree<K, V>)
    requires BlackBalanced(l) && BlackBalanced(r) && BlackHeight(l) == BlackHeight(r) && NoRedRed(r)
    requires NoRedRed(l) || (IsRed(l) && Infringed(l))
    requires c ==> NoRedRed(l) && !IsRed(r)
    ensures BlackBalanced(FixLeft(c, l, p, r)) && BlackHeight(FixLeft(c, l, p, r)) == BlackHeight(Branch(c, l, p, r))
    ensures !c ==> NoRedRed(FixLeft(c, l, p, r))
    ensures c ==> IsRed(FixLeft(c, l, p, r)) && Infringed(FixLeft(c, l, p, r))
  {
  }

  /** The mirror image of `FixLeftColours`. */
  lemma FixRightColours<K, V>(c: bool, l: RBTree<K, V>, p: Node<K, V>, r: RBTree<K, V>)
    requires BlackBalanced(l) && BlackBalanced(r) && BlackHeight(l) == BlackHeight(r) && NoRedRed(l)
    requires NoRedRed(r) || (IsRed(r) && Infringed(r))
    requires c ==> NoRedRed(r) && !IsRed(l)
    ensures BlackBalanced(FixRight(c, l, p, r)) && BlackHeight(FixRight(c, l, p, r)) == BlackHeight(Branch(c, l, p, r))
    ensures !c ==> NoRedRed(FixRight(c, l, p, r))
    ensures c ==> IsRed(FixRight(c, l, p, r)) && Infringed(FixRight(c, l, p, r))
  {
  }

  /**
   * Balanced insertion into a tree that keeps the colour rule and balanced
   * black heights: the heights stay balanced and unchanged; a black (or
   * empty) tree keeps the colour rule, and a red one is at worst infringed
   * at its root, for the caller's pass to repair.
   */
  lemma {:induction false} InsColours<K, V>(t: RBTree<K, V>, x: Node<K, V>, tie: (Option<K>, Option<K>) -> bool)
    requires NoRedRed(t) && BlackBalanced(t)
    ensures BlackBalanced(Ins(t, x, tie)) && BlackHeight(Ins(t, x, tie)) == BlackHeight(t)
    ensures !IsRed(t) ==> NoRedRed(Ins(t, x, tie))
    ensures IsRed(t) ==> IsRed(Ins(t, x, tie)) && Infringed(Ins(t, x, tie))
  {
    match t
    case Empty =>
    case Branch(c, l, p, r) =>
      if GoesLeft(x, p, tie) {
        InsColours(l, x, tie);
        FixLeftColours(c, Ins(l, x, tie), p, r);
      } else {
        InsColours(r, x, tie);
        FixRightColours(c, l, p, Ins(r, x, tie));
      }
  }

  /** Linking a node and `balanceInsertion` keep the red-black rules, and so the colour test of `checkInvariants`. */
  lemma InsertRedBlack<K, V>(t: RBTree<K, V>, x: Node<K, V>, tie: (Option<K>, Option<K>) -> bool)
    requires RedBlack(t)
    ensures RedBlack(Insert(t, x, tie)) && RedOk(Insert(t, x, tie))
  {
    InsColours(t, x, tie);
    NoRedRedRedOk(Insert(t, x, tie));
  }

  /* ---------------- Root placement, removal and splitting ---------------- */

  /** `moveRootToFront`: the root's node `i` becomes the chain's first, the others keeping their order. */
  function MoveRootToFront<K, V>(c: seq<Node<K, V>>, i: int): (r: seq<Node<K, V>>)
    requires 0 <= i < |c|
    ensures multiset(r) == multiset(c) && r[0] == c[i]
    ensures r[1..] == c[..i] + c[i + 1..]
    ensures i == 0 ==> r == c
  {
    assert c == c[..i] + [c[i]] + c[i + 1..];
    [c[i]] + c[..i] + c[i + 1..]
  }

  /** Moving the root to the front keeps a chain's keys distinct. */
  lemma {:induction false} MoveRootKeepsDistinct<K, V>(c: seq<Node<K, V>>, i: int)
    requires 0 <= i < |c| && DistinctKeys(c)
    ensures DistinctKeys(MoveRootToFront(c, i))
  {
    var r := MoveRootToFront(c, i);
    forall a, b | 0 <= a < b < |r|
      ensures r[a].key != r[b].key
    {
      var a' := if a == 0 then i else if a - 1 < i then a - 1 else a;
      var b' := if b - 1 < i then b - 1 else b;
      assert r[a] == c[a'] && r[b] == c[b'] && a' != b';
    }
  }

  /** The test of `removeTreeNode` for a tree too small to stay one: no right child, no left child, or no left-left grandchild. */
  predicate TooSmall<K, V>(t: RBTree<K, V>)
  {
    t.Empty? || t.right.Empty? || t.left.Empty? || t.left.left.Empty?
  }

  /** A tree that is not too small has at least four nodes, so any smaller tree is untreeified. */
  lemma {:induction false} NotTooSmallHasFour<K, V>(t: RBTree<K, V>)
    requires !TooSmall(t)
    ensures |Elements(t)| >= 4
  {
    assert |Elements(t.left.left)| >= 1 && |Elements(t.right)| >= 1;
  }

  /** The leftmost node of a non-empty tree: the successor `removeTreeNode` swaps in. */
  function Leftmost<K, V>(t: RBTree<K, V>): Node<K, V>
    requires t.Branch?
  {
    if t.left.Empty? then t.node else Leftmost(t.left)
  }

  /** The tree without its leftmost node, which its right subtree replaces. */
  function RemoveLeftmost<K, V>(t: RBTree<K, V>): RBTree<K, V>
    requires t.Branch?
  {
    if t.left.Empty? then t.right else Branch(t.red, RemoveLeftmost(t.left), t.node, t.right)
  }

  lemma {:induction false} LeftmostSplits<K, V>(t: RBTree<K, V>)
    requires t.Branch?
    ensures Elements(t) == [Leftmost(t)] + Elements(RemoveLeftmost(t))
  {
    if t.left.Branch? {
      LeftmostSplits(t.left);
    }
  }

  /** On an ordered tree the leftmost node has the least hash, and removing it keeps the order. */
  lemma {:induction false} LeftmostOrdered<K, V>(t: RBTree<K, V>)
    requires t.Branch? && Ordered(t)
    ensures Ordered(RemoveLeftmost(t)) && AtLeast(Elements(t), Leftmost(t).hash)
  {
    if t.left.Branch? {
      LeftmostOrdered(t.left);
      LeftmostSplits(t.left);
      assert Leftmost(t.left) in Elements(t.left);
    }
  }

  /**
   * The tree with node `x` taken out: a node with at most one child is
   * replaced by that child; one with two children by its successor, which
   * takes its colour, the successor's own place going to its right child.
   * `balanceDeletion` is not modelled.
   */
  function Delete<K(==), V(==)>(t: RBTree<K, V>, x: Node<K, V>): RBTree<K, V>
  {
    match t
    case Empty => Empty
    case Branch(c, l, n, r) =>
      if x in Elements(l) then Branch(c, Delete(l, x), n, r)
      else if n == x then
        if l.Empty? then r
        else if r.Empty? then l
        else Branch(c, l, Leftmost(r), RemoveLeftmost(r))
      else Branch(c, l, n, Delete(r, x))
  }

  /** Deleting a held node cuts it out of the in-order sequence. */
  lemma {:induction false} DeleteSplice<K, V>(t: RBTree<K, V>, x: Node<K, V>) returns (i: nat)
    requires x in Elements(t)
    ensures i < |Elements(t)| && Elements(t)[i] == x
    ensures Elements(Delete(t, x)) == Elements(t)[..i] + Elements(t)[i + 1..]
  {
    if x in Elements(t.left) {
      var j := DeleteSplice(t.left, x);
      i := DeleteLeftSplice(t, x, j);
    } else if t.node == x {
      i := DeleteHereSplice(t);
    } else {
      assert x in Elements(t.right);
      var j := DeleteSplice(t.right, x);
      i := DeleteRightSplice(t, x, j);
    }
  }

  /** One step of `DeleteSplice` into the left subtree. */
  lemma DeleteLeftSplice<K, V>(t: RBTree<K, V>, x: Node<K, V>, j: nat) returns (i: nat)
    requires t.Branch? && x in Elements(t.left)
    requires j < |Elements(t.left)| && Elements(t.left)[j] == x
    requires Elements(Delete(t.left, x)) == Elements(t.left)[..j] + Elements(t.left)[j + 1..]
    ensures i < |Elements(t)| && Elements(t)[i] == x
    ensures Elements(Delete(t, x)) == Elements(t)[..i] + Elements(t)[i + 1..]
  {
    assert Delete(t, x) == Branch(t.red, Delete(t.left, x), t.node, t.right);
    CutInLeft(Elements(t.left), t.node, Elements(t.right), j);
    i := j;
  }

  /** One step of `DeleteSplice` into the right subtree. */
  lemma DeleteRightSplice<K, V>(t: RBTree<K, V>, x: Node<K, V>, j: nat) returns (i: nat)
    requires t.Branch? && x !in Elements(t.left) && x != t.node
    requires j < |Elements(t.right)| && Elements(t.right)[j] == x
    requires Elements(Delete(t.right, x)) == Elements(t.right)[..j] + Elements(t.right)[j + 1..]
    ensures i < |Elements(t)| && Elements(t)[i] == x
    ensures Elements(Delete(t, x)) == Elements(t)[..i] + Elements(t)[i + 1..]
  {
    assert Delete(t, x) == Branch(t.red, t.left, t.node, Delete(t.right, x));
    CutInRight(Elements(t.left), t.node, Elements(t.right), j);
    i := |Elements(t.left)| + 1 + j;
  }

  /** Deleting the root node cuts it out at the position after the left subtree. */
  lemma {:induction false} DeleteHereSplice<K, V>(t: RBTree<K, V>) returns (i: nat)
    requires t.Branch? && t.node !in Elements(t.left)
    ensures i < |Elements(t)| && Elements(t)[i] == t.node
    ensures Elements(Delete(t, t.node)) == Elements(t)[..i] + Elements(t)[i + 1..]
  {
    var l, n, r := t.left, t.node, t.right;
    CutMiddle(Elements(l), n, Elements(r));
    if l.Branch? && r.Branch? {
      assert Delete(t, n) == Branch(t.red, l, Leftmost(r), RemoveLeftmost(r));
      LeftmostSplits(r);
    }
    i := |Elements(l)|;
  }

  /** Deleting a held node removes exactly it. */
  lemma DeleteElements<K, V>(t: RBTree<K, V>, x: Node<K, V>)
    requires x in Elements(t)
    ensures multiset(Elements(Delete(t, x))) == multiset(Elements(t)) - multiset{x}
  {
    var i := DeleteSplice(t, x);
    CutMultiset(Elements(t), i);
  }

  lemma CutInLeft<T>(a: seq<T>, p: T, b: seq<T>, j: nat)
    requires j < |a|
    ensures (a + [p] + b)[j] == a[j]
    ensures (a[..j] + a[j + 1..]) + [p] + b == (a + [p] + b)[..j] + (a + [p] + b)[j + 1..]
  {
    assert (a + [p] + b)[..j] == a[..j];
    assert (a + [p] + b)[j + 1..] == a[j + 1..] + [p] + b;
  }

  lemma CutInRight<T>(a: seq<T>, p: T, b: seq<T>, j: nat)
    requires j < |b|
    ensures (a + [p] + b)[|a| + 1 + j] == b[j]
    ensures a + [p] + (b[..j] + b[j + 1..]) == (a + [p] + b)[..|a| + 1 + j] + (a + [p] + b)[|a| + 1 + j + 1..]
  {
    assert (a + [p] + b)[..|a| + 1 + j] == a + [p] + b[..j];
    assert (a + [p] + b)[|a| + 1 + j + 1..] == b[j + 1..];
  }

  lemma CutMiddle<T>(a: seq<T>, p: T, b: seq<T>)
    ensures (a + [p] + b)[|a|] == p
    ensures a + b == (a + [p] + b)[..|a|] + (a + [p] + b)[|a| + 1..]
  {
    assert (a + [p] + b)[..|a|] == a;
    assert (a + [p] + b)[|a| + 1..] == b;
  }

  lemma CutMultiset<T>(e: seq<T>, i: nat)
    requires i < |e|
    ensures multiset(e[..i] + e[i + 1..]) == multiset(e) - multiset{e[i]}
  {
    assert e == e[..i] + [e[i]] + e[i + 1..];
  }

  /** The last element of a non-empty sequence, taken off. */
  lemma LastMultiset<T>(c: seq<T>)
    requires |c| > 0
    ensures multiset(c) == multiset(c[..|c| - 1]) + multiset{c[|c| - 1]}
  {
    assert c == c[..|c| - 1] + [c[|c| - 1]];
  }

  /** Deleting a held node keeps the hash order. */
  lemma {:induction false} DeleteOrdered<K, V>(t: RBTree<K, V>, x: Node<K, V>)
    requires x in Elements(t) && Ordered(t)
    ensures Ordered(Delete(t, x))
  {
    if x in Elements(t.left) {
      DeleteElements(t.left, x);
      DeleteOrdered(t.left, x);
      FewerAtMost(Elements(Delete(t.left, x)), Elements(t.left), t.node.hash);
      assert Delete(t, x) == Branch(t.red, Delete(t.left, x), t.node, t.right);
    } else if t.node == x {
      if t.left.Branch? && t.right.Branch? {
        DeleteHereOrdered(t);
      }
    } else {
      assert x in Elements(t.right);
      DeleteElements(t.right, x);
      DeleteOrdered(t.right, x);
      FewerAtLeast(Elements(Delete(t.right, x)), Elements(t.right), t.node.hash);
      assert Delete(t, x) == Branch(t.red, t.left, t.node, Delete(t.right, x));
    }
  }

  /** Replacing a node with two children by its successor keeps the order. */
  lemma DeleteHereOrdered<K, V>(t: RBTree<K, V>)
    requires t.Branch? && t.left.Branch? && t.right.Branch? && Ordered(t)
    ensures Ordered(Branch(t.red, t.left, Leftmost(t.right), RemoveLeftmost(t.right)))
  {
    LeftmostSplits(t.right);
    LeftmostOrdered(t.right);
    assert Leftmost(t.right) in Elements(t.right);
  }

  /** Fewer nodes keep an upper bound on their hashes. */
  lemma FewerAtMost<K, V>(a: seq<Node<K, V>>, b: seq<Node<K, V>>, h: int)
    requires multiset(a) <= multiset(b) && AtMost(b, h)
    ensures AtMost(a, h)
  {
    forall y | y in a
      ensures y.hash <= h
    {
      assert y in multiset(a);
    }
  }

  /** Fewer nodes keep a lower bound on their hashes. */
  lemma FewerAtLeast<K, V>(a: seq<Node<K, V>>, b: seq<Node<K, V>>, h: int)
    requires multiset(a) <= multiset(b) && AtLeast(b, h)
    ensures AtLeast(a, h)
  {
    forall y | y in a
      ensures y.hash >= h
    {
      assert y in multiset(a);
    }
  }

  /** A bucket after `removeTreeNode` or `split`: a plain list, or a tree bin. */
  datatype Bucket<K, V> = Plain(nodes: seq<Node<K, V>>) | Treed(bin: TreeBin<K, V>)
  {
    /** The bucket as the table model sees it: its chain, and whether it is a tree. */
    function Shape(): Bin<K, V>
    {
      match this
      case Plain(c) => Bin(c, false)
      case Treed(b) => Bin(b.chain, true)
    }
  }

  /** `untreeify`: a plain list of the same nodes in chain order. */
  function Untreeify<K, V>(b: TreeBin<K, V>): (r: Bucket<K, V>)
    ensures Valid(b) ==> r.Plain? && multiset(r.nodes) == multiset(Elements(b.root))
  {
    Plain(b.chain)
  }

  /**
   * `removeTreeNode` for node `t` of the chain: unlinks it from the chain;
   * an emptied bucket becomes null; a tree too small (tested before the
   * node leaves the tree) becomes a plain list; otherwise the node leaves
   * the tree too and, when `movable`, the new root moves to the chain's
   * front.
   */
  function RemoveTreeNode<K(==), V(==)>(b: TreeBin<K, V>, t: int, movable: bool): Bucket<K, V>
    requires 0 <= t < |b.chain|
  {
    var rest := b.chain[..t] + b.chain[t + 1..];
    if |rest| == 0 then Plain([])
    else if TooSmall(b.root) then Untreeify(TreeBin(b.root, rest))
    else
      var root := Delete(b.root, b.chain[t]);
      if movable then Treed(TreeBin(root, RootToFront(root, rest))) else Treed(TreeBin(root, rest))
  }

  /**
   * Removing a node from a valid tree bin leaves the other nodes: a plain
   * list exactly when the chain empties or the tree was too small, and a
   * valid tree bin otherwise, whose chain keeps the others' order unless
   * the root moved to the front.
   */
  lemma {:induction false} RemoveTreeNodeSpec<K, V>(b: TreeBin<K, V>, t: int, movable: bool)
    requires Valid(b) && 0 <= t < |b.chain|
    ensures var rest := b.chain[..t] + b.chain[t + 1..]; var r := RemoveTreeNode(b, t, movable);
      multiset(r.Shape().chain) == multiset(b.chain) - multiset{b.chain[t]}
      && (r.Plain? <==> |rest| == 0 || TooSmall(b.root))
      && (r.Plain? ==> r.nodes == rest)
      && (r.Treed? ==> Valid(r.bin) && (!movable ==> r.bin.chain == rest))
      && (r.Treed? && movable ==> r.bin.chain == RootToFront(r.bin.root, rest) && r.bin.chain[0] == r.bin.root.node)
  {
    var x := b.chain[t];
    var rest := b.chain[..t] + b.chain[t + 1..];
    assert b.chain == b.chain[..t] + [x] + b.chain[t + 1..];
    assert multiset(rest) == multiset(b.chain) - multiset{x};
    ChainRemoveDistinct(b.chain, t);
    if |rest| > 0 && !TooSmall(b.root) {
      assert x in multiset(Elements(b.root));
      DeleteElements(b.root, x);
      DeleteOrdered(b.root, x);
      var root := Delete(b.root, x);
      assert multiset(Elements(root)) == multiset(rest);
      assert |Elements(root)| == |rest| > 0;
      RootToFrontKeeps(root, rest);
      assert root.node in multiset(Elements(root));
    }
  }

  lemma {:induction false} ChainRemoveDistinct<K, V>(c: seq<Node<K, V>>, t: int)
    requires DistinctKeys(c) && 0 <= t < |c|
    ensures DistinctKeys(c[..t] + c[t + 1..])
  {
    var r := c[..t] + c[t + 1..];
    forall a, b | 0 <= a < b < |r|
      ensures r[a].key != r[b].key
    {
      assert r[a] == c[if a < t then a else a + 1] && r[b] == c[if b < t then b else b + 1];
    }
  }

  /**
   * `split` of a tree bin of at least two nodes when a table of length `n`
   * doubles: each half keeps chain order; a half of at most
   * `UNTREEIFY_THRESHOLD` nodes becomes a plain list; a larger half stays a
   * tree, rebuilt by `treeify` (root moved to the front) only when the
   * other half is not empty.
   */
  function SplitTree<K(==), V(==)>(b: TreeBin<K, V>, n: int, high: bool, tie: (Option<K>, Option<K>) -> bool): Bucket<K, V>
    requires n > 0
  {
    var part := Half(b.chain, n, high);
    if |part| <= UntreeifyThreshold then Plain(part)
    else if |Half(b.chain, n, !high)| == 0 then Treed(TreeBin(b.root, part))
    else
      var root := Treeify(part, tie);
      Treed(TreeBin(root, RootToFront(root, part)))
  }

  /** Every node goes to exactly one half. */
  lemma {:induction false} HalvesCover<K, V>(c: seq<Node<K, V>>, n: int, high: bool)
    requires n > 0
    ensures multiset(Half(c, n, high)) + multiset(Half(c, n, !high)) == multiset(c)
  {
    if |c| > 0 {
      var init := c[..|c| - 1];
      HalvesCover(init, n, high);
      assert c == init + [c[|c| - 1]];
    }
  }

  /**
   * A tree bin's split agrees with the table model's `SplitBin` on the tree
   * flag and the nodes of each half; a plain half, or a tree half left
   * whole, has `SplitBin`'s chain, and a rebuilt tree half has it with its
   * root moved to the front. Every half kept as a tree is a valid tree bin.
   */
  lemma {:induction false} SplitTreeAgrees<K, V>(b: TreeBin<K, V>, n: int, high: bool, tie: (Option<K>, Option<K>) -> bool)
    requires n > 0 && Valid(b) && |b.chain| >= 2 && |Half(b.chain, n, high)| > 0
    ensures var r := SplitTree(b, n, high, tie); var s := SplitBin(Bin(b.chain, true), n, high);
      r.Shape().treed == s.treed && multiset(r.Shape().chain) == multiset(s.chain)
      && (r.Plain? ==> r.nodes == s.chain)
      && (r.Treed? ==> Valid(r.bin))
      && (r.Treed? && |Half(b.chain, n, !high)| == 0 ==> r.bin.root == b.root && r.bin.chain == s.chain)
      && (r.Treed? && |Half(b.chain, n, !high)| > 0 ==> r.bin.chain == RootToFront(r.bin.root, s.chain))
  {
    var part := Half(b.chain, n, high);
    HalfDistinct(b.chain, n, high);
    if |part| > UntreeifyThreshold {
      if |Half(b.chain, n, !high)| == 0 {
        HalvesCover(b.chain, n, high);
      } else {
        TreeifyValid(part, tie);
        RootToFrontKeeps(Treeify(part, tie), part);
      }
    }
  }
}
