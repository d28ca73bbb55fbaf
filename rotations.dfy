/**
 * Rebalancing in src/lib.rs: the four rotations, the weight repair that
 * follows each of them, and the rotation choice that insertion and removal
 * make on the way back up.
 *
 * Each `&mut self` method becomes a method that takes the tree and returns
 * the tree that replaces it; the source moves subtrees with `take()`, which
 * on a value is plain reassignment. Dereferencing an empty tree panics in the
 * source, so every rotation requires the children it dereferences to exist.
 */
module Rotations {
  import opened Trees

  /**
   * Tree::update_weights: recompute the weights of the nodes no deeper than
   * `depth` from the weights found one level further down, and return the
   * root's weight. Nothing but weights changes, and nothing deeper than
   * `depth` changes at all.
   */
  method UpdateWeights<V>(t: Tree<V>, depth: int) returns (t': Tree<V>, w: nat)
    requires t.Filled?
    ensures t'.Filled? && SameExceptWeights(t, t') && Elements(t') == Elements(t)
    ensures w == Weight(t')
    ensures depth < 0 ==> t' == t
    ensures depth >= 0 ==> w == 1 + Weight(t'.node.left) + Weight(t'.node.right)
    ensures ValidBelow(t, depth) ==> WeightsValid(t')
    ensures SameBelow(t, t', depth)
    decreases t
  {
    var n := t.node;
    if depth >= 0 {
      var wtL, wtR := 0, 0;
      if n.left.Filled? {
        var l;
        l, wtL := UpdateWeights(n.left, depth - 1);
        n := n.(left := l);
      }
      if n.right.Filled? {
        var r;
        r, wtR := UpdateWeights(n.right, depth - 1);
        n := n.(right := r);
      }
      n := n.(weight := 1 + wtL + wtR);
    } else {
      SameExceptWeightsReflexive(t);
    }
    t' := Filled(n);
    w := n.weight;
  }

  /** The subtrees rooted deeper than `depth` are the same in `a` and `b`, weights included. */
  ghost predicate SameBelow<V>(a: Tree<V>, b: Tree<V>, depth: int)
    decreases a
  {
    if depth < 0 then a == b
    else match a
      case Empty => b.Empty?
      case Filled(n) =>
        b.Filled? && SameBelow(n.left, b.node.left, depth - 1) && SameBelow(n.right, b.node.right, depth - 1)
  }

  /** What every rotation promises: the same pairs in the same order, hence the same dictionary and order. */
  ghost predicate SameContents<V>(t: Tree<V>, t': Tree<V>)
  {
    && Elements(t') == Elements(t)
    && ToMap(t') == ToMap(t)
    && (Ordered(t') <==> Ordered(t))
  }

  lemma SameContentsOfElements<V>(t: Tree<V>, t': Tree<V>)
    requires Elements(t') == Elements(t)
    ensures SameContents(t, t')
  {
    SameElementsSameMap(t, t');
    SameElementsSameOrder(t, t');
  }

  /**
   * Tree::rotate_left_left: the left child becomes the root; its right
   * subtree becomes the old root's left subtree.
   */
  method RotateLeftLeft<V>(t: Tree<V>) returns (t': Tree<V>)
    requires t.Filled? && t.node.left.Filled?
    ensures t'.Filled? && SameContents(t, t')
    ensures t'.node.key == t.node.left.node.key
    ensures var l := t.node.left.node;
      WeightsValid(l.left) && WeightsValid(l.right) && WeightsValid(t.node.right) ==>
        WeightsValid(t') && Weight(t') == |Elements(t)|
  {
    var n := t.node;
    var top := n.left.node;
    n := n.(left := top.right);
    top := top.(right := Filled(n));
    var weight;
    t', weight := UpdateWeights(Filled(top), 2);
    var l := t.node.left.node;
    assert Elements(Filled(top)) == Elements(l.left) + [(l.key, l.value)] + Elements(Filled(n));
    SameContentsOfElements(t, t');
    if WeightsValid(l.left) && WeightsValid(l.right) && WeightsValid(t.node.right) {
      ValidBelowOfValid(l.left, 1);
      ValidBelowOfValid(l.right, 0);
      ValidBelowOfValid(t.node.right, 0);
      assert ValidBelow(Filled(n), 1);
      WeightIsSize(t');
    }
  }

  /**
   * Tree::rotate_right_right: the right child becomes the root; its left
   * subtree becomes the old root's right subtree.
   */
  method RotateRightRight<V>(t: Tree<V>) returns (t': Tree<V>)
    requires t.Filled? && t.node.right.Filled?
    ensures t'.Filled? && SameContents(t, t')
    ensures t'.node.key == t.node.right.node.key
    ensures var r := t.node.right.node;
      WeightsValid(r.left) && WeightsValid(r.right) && WeightsValid(t.node.left) ==>
        WeightsValid(t') && Weight(t') == |Elements(t)|
  {
    var n := t.node;
    var top := n.right.node;
    n := n.(right := top.left);
    top := top.(left := Filled(n));
    var weight;
    t', weight := UpdateWeights(Filled(top), 2);
    var r := t.node.right.node;
    assert Elements(Filled(top)) == Elements(Filled(n)) + [(r.key, r.value)] + Elements(r.right);
    SameContentsOfElements(t, t');
    if WeightsValid(r.left) && WeightsValid(r.right) && WeightsValid(t.node.left) {
      ValidBelowOfValid(r.right, 1);
      ValidBelowOfValid(r.left, 0);
      ValidBelowOfValid(t.node.left, 0);
      assert ValidBelow(Filled(n), 1);
      WeightIsSize(t');
    }
  }

  /**
   * Tree::rotate_right_left: the right child's left child becomes the root,
   * with the old root on its left and the old right child on its right.
   */
  method RotateRightLeft<V>(t: Tree<V>) returns (t': Tree<V>)
    requires t.Filled? && t.node.right.Filled? && t.node.right.node.left.Filled?
    ensures t'.Filled? && SameContents(t, t')
    ensures t'.node.key == t.node.right.node.left.node.key
    ensures var r := t.node.right.node; var rl := r.left.node;
      WeightsValid(t.node.left) && WeightsValid(rl.left) && WeightsValid(rl.right) && WeightsValid(r.right) ==>
        WeightsValid(t') && Weight(t') == |Elements(t)|
  {
    var n := t.node;
    var t2 := n.right.node.left.node;
    var t1 := n.right.node.(left := Empty);
    n := n.(right := t2.left);
    t1 := t1.(left := t2.right);
    t2 := t2.(left := Filled(n), right := Filled(t1));
    var weight;
    t', weight := UpdateWeights(Filled(t2), 2);
    var r := t.node.right.node;
    var rl := r.left.node;
    assert Elements(t.node.right) == Elements(rl.left) + [(rl.key, rl.value)] + Elements(rl.right)
      + [(r.key, r.value)] + Elements(r.right);
    assert Elements(Filled(t2)) == Elements(Filled(n)) + [(rl.key, rl.value)] + Elements(Filled(t1));
    SameContentsOfElements(t, t');
    if WeightsValid(t.node.left) && WeightsValid(rl.left) && WeightsValid(rl.right) && WeightsValid(r.right) {
      ValidBelowOfValid(t.node.left, 0);
      ValidBelowOfValid(rl.left, 0);
      ValidBelowOfValid(rl.right, 0);
      ValidBelowOfValid(r.right, 0);
      assert ValidBelow(Filled(n), 1) && ValidBelow(Filled(t1), 1);
      WeightIsSize(t');
    }
  }

  /**
   * Tree::rotate_left_right: the left child's right child becomes the root,
   * with the old left child on its left and the old root on its right.
   */
  method RotateLeftRight<V>(t: Tree<V>) returns (t': Tree<V>)
    requires t.Filled? && t.node.left.Filled? && t.node.left.node.right.Filled?
    ensures t'.Filled? && SameContents(t, t')
    ensures t'.node.key == t.node.left.node.right.node.key
    ensures var l := t.node.left.node; var lr := l.right.node;
      WeightsValid(l.left) && WeightsValid(lr.left) && WeightsValid(lr.right) && WeightsValid(t.node.right) ==>
        WeightsValid(t') && Weight(t') == |Elements(t)|
  {
    var n := t.node;
    var t2 := n.left.node.right.node;
    var t1 := n.left.node.(right := Empty);
    n := n.(left := t2.right);
    t1 := t1.(right := t2.left);
    t2 := t2.(right := Filled(n), left := Filled(t1));
    var weight;
    t', weight := UpdateWeights(Filled(t2), 2);
    var l := t.node.left.node;
    var lr := l.right.node;
    assert Elements(t.node.left) == Elements(l.left) + [(l.key, l.value)] + Elements(lr.left)
      + [(lr.key, lr.value)] + Elements(lr.right);
    assert Elements(Filled(t2)) == Elements(Filled(t1)) + [(lr.key, lr.value)] + Elements(Filled(n));
    SameContentsOfElements(t, t');
    if WeightsValid(l.left) && WeightsValid(lr.left) && WeightsValid(lr.right) && WeightsValid(t.node.right) {
      ValidBelowOfValid(l.left, 0);
      ValidBelowOfValid(lr.left, 0);
      ValidBelowOfValid(lr.right, 0);
      ValidBelowOfValid(t.node.right, 0);
      assert ValidBelow(Filled(n), 1) && ValidBelow(Filled(t1), 1);
      WeightIsSize(t');
    }
  }

  /**
   * The rebalancing step of Tree::insert, run at a node whose subtree grew:
   * rotate when the balance factor is 2 or more (or -2 or less) and the heavy
   * child leans strictly one way; a child with balance 0 leaves the node as it is.
   */
  method RebalanceAfterInsert<V>(t: Tree<V>) returns (t': Tree<V>)
    requires t.Filled?
    ensures t'.Filled? && SameContents(t, t')
    ensures WeightsValid(t) ==> WeightsValid(t') && Weight(t') == Weight(t)
    ensures -2 < t.node.Balance() < 2 ==> t' == t
    ensures var n := t.node; n.Balance() >= 2 ==>
      && (n.left.Balance() > 0 ==> t'.node.key == n.left.node.key)
      && (n.left.Balance() < 0 ==> t'.node.key == n.left.node.right.node.key)
      && (n.left.Balance() == 0 ==> t' == t)
    ensures var n := t.node; n.Balance() <= -2 ==>
      && (n.right.Balance() < 0 ==> t'.node.key == n.right.node.key)
      && (n.right.Balance() > 0 ==> t'.node.key == n.right.node.left.node.key)
      && (n.right.Balance() == 0 ==> t' == t)
  {
    t' := t;
    var node := t.node;
    var bf := node.Balance();
    var bfR := node.right.Balance();
    var bfL := node.left.Balance();
    if WeightsValid(t) {
      ValidDescendants(t);
    }
    if bf >= 2 {
      if bfL > 0 {
        t' := RotateLeftLeft(t);
      } else if bfL < 0 {
        t' := RotateLeftRight(t);
      }
    } else if bf <= -2 {
      if bfR < 0 {
        t' := RotateRightRight(t);
      } else if bfR > 0 {
        t' := RotateRightLeft(t);
      }
    }
    SameContentsOfElements(t, t');
    WeightIsSize(t);
  }

  /**
   * The rebalancing step of Tree::remove, run at a node whose subtree shrank:
   * the same thresholds as insertion, but a heavy child with balance 0 takes
   * the single rotation.
   */
  method RebalanceAfterRemove<V>(t: Tree<V>) returns (t': Tree<V>)
    requires t.Filled?
    ensures t'.Filled? && SameContents(t, t')
    ensures WeightsValid(t) ==> WeightsValid(t') && Weight(t') == Weight(t)
    ensures -2 < t.node.Balance() < 2 ==> t' == t
    ensures var n := t.node; n.Balance() >= 2 ==>
      && (n.left.Balance() >= 0 ==> t'.node.key == n.left.node.key)
      && (n.left.Balance() < 0 ==> t'.node.key == n.left.node.right.node.key)
    ensures var n := t.node; n.Balance() <= -2 ==>
      && (n.right.Balance() <= 0 ==> t'.node.key == n.right.node.key)
      && (n.right.Balance() > 0 ==> t'.node.key == n.right.node.left.node.key)
  {
    t' := t;
    var node := t.node;
    var bf := node.Balance();
    var bfR := node.right.Balance();
    var bfL := node.left.Balance();
    if WeightsValid(t) {
      ValidDescendants(t);
    }
    if bf >= 2 {
      if bfL >= 0 {
        t' := RotateLeftLeft(t);
      } else if bfL < 0 {
        t' := RotateLeftRight(t);
      }
    } else if bf <= -2 {
      if bfR <= 0 {
        t' := RotateRightRight(t);
      } else if bfR > 0 {
        t' := RotateRightLeft(t);
      }
    }
    SameContentsOfElements(t, t');
    WeightIsSize(t);
  }
}
