/**
 * The data model of src/lib.rs: a `Tree` is `Empty` or `Filled` with a `Node`
 * that owns a key, a value, the number of nodes in its subtree (`weight`) and
 * two child trees. Ownership is exclusive, so a tree is a plain value here.
 *
 * Besides the data model this module holds the functions the operations are
 * specified against: the in-order sequence of pairs, the dictionary the tree
 * stands for, search-tree order and the weight invariant.
 */
module Trees {
  import opened Options
  import opened Logarithm

  datatype Node<V> = Node(key: int, value: V, weight: nat, left: Tree<V>, right: Tree<V>)
  {
    /**
     * Node::balance: approximate height of the left subtree minus that of the
     * right one. A factor of 2 or more can only come from a left child of at
     * least 4 nodes, a positive one from a left child of at least 2, and
     * symmetrically on the right.
     */
    function Balance(): (b: int)
      ensures b >= 2 ==> left.Filled? && left.node.weight >= 4
      ensures b <= -2 ==> right.Filled? && right.node.weight >= 4
      ensures b > 0 ==> left.Filled? && left.node.weight >= 2
      ensures b < 0 ==> right.Filled? && right.node.weight >= 2
    {
      HeightAtLeast(left, 1);
      HeightAtLeast(left, 2);
      HeightAtLeast(right, 1);
      HeightAtLeast(right, 2);
      left.Height() - right.Height()
    }
  }

  datatype Tree<V> = Empty | Filled(node: Node<V>)
  {
    /**
     * Tree::height: floor(log2(weight)), 0 for an empty tree; not a stored
     * height. Under the weight invariant it is floor(log2) of the number of
     * nodes: 2^h <= size < 2^(h+1).
     */
    function Height(): (h: nat)
      ensures Empty? ==> h == 0
      ensures Filled? && WeightsValid(this) ==> Pow2(h) <= |Elements(this)| < Pow2(h + 1)
    {
      WeightIsSize(this);
      match this
      case Empty => 0
      case Filled(n) => Log2(n.weight)
    }

    /**
     * Tree::balance: the root's balance factor, 0 for an empty tree. A
     * negative factor needs a right child of at least 2 nodes (the node
     * rotate_left_right dereferences below a left child), a positive one a
     * left child of at least 2 nodes (the node rotate_right_left dereferences
     * below a right child).
     */
    function Balance(): (b: int)
      ensures Empty? ==> b == 0
      ensures b < 0 ==> Filled? && node.right.Filled? && node.right.node.weight >= 2
      ensures b > 0 ==> Filled? && node.left.Filled? && node.left.node.weight >= 2
    {
      match this
      case Empty => 0
      case Filled(n) => n.Balance()
    }
  }

  /** Node::new: a node with no children and weight 1. */
  function NewNode<V>(key: int, value: V): (n: Node<V>)
    ensures Elements(Filled(n)) == [(key, value)]
    ensures WeightsValid(Filled(n))
  {
    Node(key, value, 1, Empty, Empty)
  }

  /** Tree::new: the empty dictionary. */
  function New<V>(): (t: Tree<V>)
    ensures ToMap(t) == map[] && Ordered(t) && WeightsValid(t)
  {
    Empty
  }

  /** Tree::is_empty: true exactly when the dictionary holds no pair. */
  function IsEmpty<V>(t: Tree<V>): (b: bool)
    ensures b <==> ToMap(t) == map[]
  {
    assert t.Filled? ==> t.node.key in ToMap(t);
    t.Empty?
  }

  /** Tree::is_filled: true exactly when the tree has at least one node. */
  function IsFilled<V>(t: Tree<V>): (b: bool)
    ensures b <==> |Elements(t)| > 0
  {
    t.Filled?
  }

  /** The weight stored at the root, 0 for an empty tree. */
  function Weight<V>(t: Tree<V>): nat
  {
    match t
    case Empty => 0
    case Filled(n) => n.weight
  }

  /** The (key, value) pairs in in-order (ascending when the tree is ordered). */
  ghost function Elements<V>(t: Tree<V>): seq<(int, V)>
  {
    match t
    case Empty => []
    case Filled(n) => Elements(n.left) + [(n.key, n.value)] + Elements(n.right)
  }

  ghost function Keys<V>(t: Tree<V>): set<int>
  {
    match t
    case Empty => {}
    case Filled(n) => Keys(n.left) + {n.key} + Keys(n.right)
  }

  /** The dictionary a tree stands for. */
  ghost function ToMap<V>(t: Tree<V>): (m: map<int, V>)
    ensures m.Keys == Keys(t)
  {
    match t
    case Empty => map[]
    case Filled(n) => ToMap(n.left)[n.key := n.value] + ToMap(n.right)
  }

  function Lookup<V>(m: map<int, V>, key: int): Option<V>
  {
    if key in m then Some(m[key]) else None
  }

  /** The dictionary built by entering the pairs of `s` from first to last. */
  ghost function SeqToMap<V>(s: seq<(int, V)>): map<int, V>
  {
    if s == [] then map[] else SeqToMap(s[..|s| - 1])[s[|s| - 1].0 := s[|s| - 1].1]
  }

  /** Binary-search-tree order: left keys < node key < right keys, at every node. */
  ghost predicate Ordered<V>(t: Tree<V>)
  {
    match t
    case Empty => true
    case Filled(n) =>
      && Ordered(n.left) && Ordered(n.right)
      && (forall x :: x in Keys(n.left) ==> x < n.key)
      && (forall x :: x in Keys(n.right) ==> n.key < x)
  }

  ghost predicate StrictlyIncreasing<V>(s: seq<(int, V)>)
  {
    forall i, j :: 0 <= i < j < |s| ==> s[i].0 < s[j].0
  }

  /** The weight invariant: weight == 1 + left.weight + right.weight at every node. */
  ghost predicate WeightsValid<V>(t: Tree<V>)
  {
    match t
    case Empty => true
    case Filled(n) =>
      n.weight == 1 + Weight(n.left) + Weight(n.right) && WeightsValid(n.left) && WeightsValid(n.right)
  }

  /** Every subtree rooted deeper than `depth` satisfies the weight invariant. */
  ghost predicate ValidBelow<V>(t: Tree<V>, depth: int)
    decreases t
  {
    if depth < 0 then WeightsValid(t)
    else match t
      case Empty => true
      case Filled(n) => ValidBelow(n.left, depth - 1) && ValidBelow(n.right, depth - 1)
  }

  /** Same structure, keys and weights; values may differ. */
  ghost predicate SameShape<V>(a: Tree<V>, b: Tree<V>)
  {
    match a
    case Empty => b.Empty?
    case Filled(n) =>
      && b.Filled? && n.key == b.node.key && n.weight == b.node.weight
      && SameShape(n.left, b.node.left) && SameShape(n.right, b.node.right)
  }

  /** Same structure, keys and values; weights may differ. */
  ghost predicate SameExceptWeights<V>(a: Tree<V>, b: Tree<V>)
  {
    match a
    case Empty => b.Empty?
    case Filled(n) =>
      && b.Filled? && n.key == b.node.key && n.value == b.node.value
      && SameExceptWeights(n.left, b.node.left) && SameExceptWeights(n.right, b.node.right)
  }

  // ---------------------------------------------------------------------------
  // Weights

  /** Under the weight invariant the stored weight is the number of nodes. */
  lemma {:induction false} WeightIsSize<V>(t: Tree<V>)
    ensures WeightsValid(t) ==> Weight(t) == |Elements(t)|
  {
    if t.Filled? {
      WeightIsSize(t.node.left);
      WeightIsSize(t.node.right);
    }
  }

  lemma {:induction false} ValidBelowOfValid<V>(t: Tree<V>, depth: int)
    requires WeightsValid(t)
    ensures ValidBelow(t, depth)
    decreases t
  {
    if depth >= 0 && t.Filled? {
      ValidBelowOfValid(t.node.left, depth - 1);
      ValidBelowOfValid(t.node.right, depth - 1);
    }
  }

  lemma {:induction false} SameShapeReflexive<V>(t: Tree<V>)
    ensures SameShape(t, t)
  {
    if t.Filled? {
      SameShapeReflexive(t.node.left);
      SameShapeReflexive(t.node.right);
    }
  }

  /** Trees of the same shape hold the same keys, so one is ordered exactly when the other is. */
  lemma {:induction false} SameShapeKeys<V>(a: Tree<V>, b: Tree<V>)
    requires SameShape(a, b)
    ensures Keys(a) == Keys(b)
    ensures Ordered(a) <==> Ordered(b)
  {
    if a.Filled? {
      SameShapeKeys(a.node.left, b.node.left);
      SameShapeKeys(a.node.right, b.node.right);
    }
  }

  lemma {:induction false} SameExceptWeightsReflexive<V>(t: Tree<V>)
    ensures SameExceptWeights(t, t)
  {
    if t.Filled? {
      SameExceptWeightsReflexive(t.node.left);
      SameExceptWeightsReflexive(t.node.right);
    }
  }

  /** Below a node that satisfies the weight invariant, every subtree down to depth 3 satisfies it. */
  lemma ValidDescendants<V>(t: Tree<V>)
    requires WeightsValid(t) && t.Filled?
    ensures var n := t.node;
      && WeightsValid(n.left) && WeightsValid(n.right)
      && (n.left.Filled? ==> WeightsValid(n.left.node.left) && WeightsValid(n.left.node.right))
      && (n.right.Filled? ==> WeightsValid(n.right.node.left) && WeightsValid(n.right.node.right))
      && (n.left.Filled? && n.left.node.right.Filled? ==>
            WeightsValid(n.left.node.right.node.left) && WeightsValid(n.left.node.right.node.right))
      && (n.right.Filled? && n.right.node.left.Filled? ==>
            WeightsValid(n.right.node.left.node.left) && WeightsValid(n.right.node.left.node.right))
  {
  }

  /** Two trees related by SameExceptWeights hold the same pairs in the same order. */
  lemma {:induction false} SameExceptWeightsElements<V>(a: Tree<V>, b: Tree<V>)
    requires SameExceptWeights(a, b)
    ensures Elements(a) == Elements(b)
  {
    if a.Filled? {
      SameExceptWeightsElements(a.node.left, b.node.left);
      SameExceptWeightsElements(a.node.right, b.node.right);
    }
  }

  // ---------------------------------------------------------------------------
  // The dictionary is determined by the in-order sequence

  lemma {:induction false} SeqToMapAppend<V>(a: seq<(int, V)>, b: seq<(int, V)>)
    ensures SeqToMap(a + b) == SeqToMap(a) + SeqToMap(b)
    decreases |b|
  {
    if b == [] {
      assert a + b == a;
    } else {
      assert (a + b)[..|a + b| - 1] == a + b[..|b| - 1];
      SeqToMapAppend(a, b[..|b| - 1]);
    }
  }

  lemma {:induction false} ToMapOfElements<V>(t: Tree<V>)
    ensures ToMap(t) == SeqToMap(Elements(t))
  {
    if t.Filled? {
      var n := t.node;
      ToMapOfElements(n.left);
      ToMapOfElements(n.right);
      var l := Elements(n.left) + [(n.key, n.value)];
      assert l[..|l| - 1] == Elements(n.left);
      SeqToMapAppend(l, Elements(n.right));
    }
  }

  /** Trees with the same in-order pairs stand for the same dictionary. */
  lemma SameElementsSameMap<V>(a: Tree<V>, b: Tree<V>)
    requires Elements(a) == Elements(b)
    ensures ToMap(a) == ToMap(b)
  {
    ToMapOfElements(a);
    ToMapOfElements(b);
  }

  /** Writing `v` at a key of the left subtree writes it into the whole dictionary. */
  lemma WriteLeft<V>(n: Node<V>, l: Tree<V>, key: int, v: V)
    ensures key != n.key && key !in Keys(n.right) && ToMap(l) == ToMap(n.left)[key := v] ==>
      ToMap(Filled(n.(left := l))) == ToMap(Filled(n))[key := v]
  {
  }

  /** Writing `v` at a key of the right subtree writes it into the whole dictionary. */
  lemma WriteRight<V>(n: Node<V>, r: Tree<V>, key: int, v: V)
    ensures ToMap(r) == ToMap(n.right)[key := v] ==>
      ToMap(Filled(n.(right := r))) == ToMap(Filled(n))[key := v]
  {
  }

  /** Deleting a key of the left subtree deletes it from the whole dictionary. */
  lemma DeleteLeft<V>(n: Node<V>, l: Tree<V>, key: int)
    requires key != n.key && key !in Keys(n.right) && ToMap(l) == ToMap(n.left) - {key}
    ensures ToMap(Filled(n.(left := l))) == ToMap(Filled(n)) - {key}
  {
    var a, b := ToMap(Filled(n.(left := l))), ToMap(Filled(n)) - {key};
    assert a.Keys == b.Keys;
    forall x | x in a ensures a[x] == b[x] {
    }
  }

  /** Deleting a key of the right subtree deletes it from the whole dictionary. */
  lemma DeleteRight<V>(n: Node<V>, r: Tree<V>, key: int)
    requires key != n.key && key !in Keys(n.left) && ToMap(r) == ToMap(n.right) - {key}
    ensures ToMap(Filled(n.(right := r))) == ToMap(Filled(n)) - {key}
  {
    var a, b := ToMap(Filled(n.(right := r))), ToMap(Filled(n)) - {key};
    assert a.Keys == b.Keys;
    forall x | x in a ensures a[x] == b[x] {
    }
  }

  /** Without its root, an ordered tree's dictionary is the union of its subtrees' ones. */
  lemma DropRoot<V>(n: Node<V>)
    requires Ordered(Filled(n))
    ensures ToMap(Filled(n)) - {n.key} == ToMap(n.left) + ToMap(n.right)
  {
    var a, b := ToMap(Filled(n)) - {n.key}, ToMap(n.left) + ToMap(n.right);
    assert a.Keys == b.Keys;
    forall x | x in a ensures a[x] == b[x] {
    }
  }

  lemma Restore<V>(m: map<int, V>, k: int, v: V)
    requires k in m && m[k] == v
    ensures (m - {k})[k := v] == m
  {
    var a := (m - {k})[k := v];
    assert a.Keys == m.Keys;
    forall x | x in a ensures a[x] == m[x] {
    }
  }

  lemma SingletonFirst<V>(m: map<int, V>, k: int, v: V)
    requires k in m && m[k] == v
    ensures map[k := v] + (m - {k}) == m
  {
    var a := map[k := v] + (m - {k});
    assert a.Keys == m.Keys;
    forall x | x in a ensures a[x] == m[x] {
    }
  }

  // ---------------------------------------------------------------------------
  // Search-tree order is the same as an ascending in-order sequence

  lemma {:induction false} ElementKeyInKeys<V>(t: Tree<V>, i: int)
    requires 0 <= i < |Elements(t)|
    ensures Elements(t)[i].0 in Keys(t)
  {
    var n := t.node;
    var nl := |Elements(n.left)|;
    if i < nl {
      ElementKeyInKeys(n.left, i);
    } else if nl < i {
      ElementKeyInKeys(n.right, i - nl - 1);
    }
  }

  lemma {:induction false} KeyIndex<V>(t: Tree<V>, x: int) returns (i: nat)
    requires x in Keys(t)
    ensures i < |Elements(t)| && Elements(t)[i].0 == x
  {
    var n := t.node;
    var nl := |Elements(n.left)|;
    if x in Keys(n.left) {
      i := KeyIndex(n.left, x);
    } else if x == n.key {
      i := nl;
    } else {
      var j := KeyIndex(n.right, x);
      i := nl + 1 + j;
    }
  }

  /** In-order traversal of an ordered tree yields strictly increasing keys. */
  lemma {:induction false} OrderedIsIncreasing<V>(t: Tree<V>)
    requires Ordered(t)
    ensures StrictlyIncreasing(Elements(t))
  {
    if t.Filled? {
      var n := t.node;
      OrderedIsIncreasing(n.left);
      OrderedIsIncreasing(n.right);
      var s, sl, sr := Elements(t), Elements(n.left), Elements(n.right);
      var nl := |sl|;
      forall i, j | 0 <= i < j < |s| ensures s[i].0 < s[j].0 {
        if i < nl {
          ElementKeyInKeys(n.left, i);
        }
        if nl < j {
          ElementKeyInKeys(n.right, j - nl - 1);
        }
        if nl < i {
          assert s[i] == sr[i - nl - 1] && s[j] == sr[j - nl - 1];
        }
      }
    }
  }

  /** A tree whose in-order keys strictly increase is a search tree. */
  lemma {:induction false} IncreasingIsOrdered<V>(t: Tree<V>)
    requires StrictlyIncreasing(Elements(t))
    ensures Ordered(t)
  {
    if t.Filled? {
      var n := t.node;
      var s, sl, sr := Elements(t), Elements(n.left), Elements(n.right);
      var nl := |sl|;
      assert forall i :: 0 <= i < nl ==> s[i] == sl[i];
      assert forall i :: 0 <= i < |sr| ==> s[nl + 1 + i] == sr[i];
      IncreasingIsOrdered(n.left);
      IncreasingIsOrdered(n.right);
      assert s[nl] == (n.key, n.value);
      forall x | x in Keys(n.left) ensures x < n.key {
        var i := KeyIndex(n.left, x);
        assert s[i] == sl[i];
      }
      forall x | x in Keys(n.right) ensures n.key < x {
        var i := KeyIndex(n.right, x);
        assert s[nl + 1 + i] == sr[i];
      }
    }
  }

  /** Trees with the same in-order pairs are both ordered or both not. */
  lemma SameElementsSameOrder<V>(a: Tree<V>, b: Tree<V>)
    requires Elements(a) == Elements(b)
    ensures Ordered(a) <==> Ordered(b)
  {
    if Ordered(a) {
      OrderedIsIncreasing(a);
      IncreasingIsOrdered(b);
    }
    if Ordered(b) {
      OrderedIsIncreasing(b);
      IncreasingIsOrdered(a);
    }
  }

  /** The last in-order pair (the rightmost node) holds the largest key. */
  lemma {:induction false} LastIsMax<V>(t: Tree<V>)
    requires t.Filled? && Ordered(t)
    ensures var e := Elements(t)[|Elements(t)| - 1];
      && e.0 in ToMap(t) && ToMap(t)[e.0] == e.1
      && forall x :: x in Keys(t) ==> x <= e.0
  {
    var n := t.node;
    if n.right.Filled? {
      LastIsMax(n.right);
    }
  }

  /** The first in-order pair (the leftmost node) holds the smallest key. */
  lemma {:induction false} FirstIsMin<V>(t: Tree<V>)
    requires t.Filled? && Ordered(t)
    ensures var e := Elements(t)[0];
      && e.0 in ToMap(t) && ToMap(t)[e.0] == e.1
      && forall x :: x in Keys(t) ==> e.0 <= x
  {
    var n := t.node;
    if n.left.Filled? {
      FirstIsMin(n.left);
    }
  }

  // ---------------------------------------------------------------------------
  // Heights

  /** A height of k >= 1 needs a node of weight at least 2^k. */
  lemma HeightAtLeast<V>(t: Tree<V>, k: nat)
    requires k >= 1
    ensures t.Height() >= k ==> t.Filled? && t.node.weight >= Pow2(k)
  {
    if t.Filled? && t.Height() >= k {
      Pow2Monotone(k, t.Height());
    }
  }
}
