/**
 * The mutating dictionary operations of src/lib.rs, `Tree::insert` and
 * `Tree::remove`, with the two descents removal relies on, `predecessor` and
 * `successor`.
 *
 * `insert(&mut self, ..)` and `remove(&mut self, ..)` become methods that take
 * the tree and return the tree that replaces it together with the source's
 * return value. Both keep the two invariants the public interface maintains:
 * search-tree order and the weight invariant.
 */
module Dictionary {
  import opened Options
  import opened Trees
  import opened Lookups
  import opened Rotations

  /** Tree::predecessor: follow right children to the rightmost node and copy its pair. */
  method Predecessor<V>(t: Tree<V>) returns (k: int, v: V)
    requires t.Filled?
    ensures (k, v) == Elements(t)[|Elements(t)| - 1]
    ensures Ordered(t) ==> k in ToMap(t) && ToMap(t)[k] == v && forall x :: x in Keys(t) ==> x <= k
  {
    var c := t;
    while c.node.right.Filled?
      invariant c.Filled?
      invariant Elements(c)[|Elements(c)| - 1] == Elements(t)[|Elements(t)| - 1]
      decreases c
    {
      c := c.node.right;
    }
    k, v := c.node.key, c.node.value;
    if Ordered(t) {
      LastIsMax(t);
    }
  }

  /** Tree::successor: follow left children to the leftmost node and copy its pair. */
  method Successor<V>(t: Tree<V>) returns (k: int, v: V)
    requires t.Filled?
    ensures (k, v) == Elements(t)[0]
    ensures Ordered(t) ==> k in ToMap(t) && ToMap(t)[k] == v && forall x :: x in Keys(t) ==> k <= x
  {
    var c := t;
    while c.node.left.Filled?
      invariant c.Filled?
      invariant Elements(c)[0] == Elements(t)[0]
      decreases c
    {
      c := c.node.left;
    }
    k, v := c.node.key, c.node.value;
    if Ordered(t) {
      FirstIsMin(t);
    }
  }

  /**
   * What storing `value` at `key` promises about the tree `t'` left in place
   * of `t`, with `ret` the value the key held before: both invariants kept,
   * the dictionary updated at `key` only, and the shape kept on an overwrite
   * or one pair more on a fresh key.
   */
  ghost predicate Written<V>(t: Tree<V>, key: int, value: V, t': Tree<V>, ret: Option<V>)
  {
    && Ordered(t') && WeightsValid(t')
    && ret == Lookup(ToMap(t), key)
    && ToMap(t') == ToMap(t)[key := value]
    && (ret.Some? ==> SameShape(t', t))
    && (ret.None? ==> Weight(t') == Weight(t) + 1)
  }

  /**
   * What removing `key` promises about the tree `t'` left in place of `t`,
   * with `ret` the value the key held: both invariants kept, `key` gone and
   * nothing else changed, the tree untouched when the key was missing and
   * one pair fewer otherwise.
   */
  ghost predicate Deleted<V>(t: Tree<V>, key: int, t': Tree<V>, ret: Option<V>)
  {
    && Ordered(t') && WeightsValid(t')
    && ret == Lookup(ToMap(t), key)
    && ToMap(t') == ToMap(t) - {key}
    && (ret.None? ==> t' == t)
    && (ret.Some? ==> Weight(t') == Weight(t) - 1)
  }

  /**
   * Tree::insert: descend by key; an equal key has its value overwritten and
   * its old value returned, with nothing else touched; a new key is placed
   * in an empty slot, and every node on the way back up gains one in weight
   * and is rebalanced.
   */
  method Insert<V>(t: Tree<V>, key: int, value: V) returns (t': Tree<V>, ret: Option<V>)
    requires Ordered(t) && WeightsValid(t)
    ensures Ordered(t') && WeightsValid(t')
    ensures ret == Lookup(ToMap(t), key)
    ensures ToMap(t') == ToMap(t)[key := value]
    ensures Get(t', key) == Some(value)
    ensures forall k :: k != key ==> Get(t', k) == Get(t, k)
    ensures ret.Some? ==> SameShape(t', t)
    ensures ret.None? ==> Weight(t') == Weight(t) + 1
    decreases t
  {
    ret := None;
    if t.Empty? {
      t' := Filled(NewNode(key, value));
      InsertedIntoEmpty(key, value);
    } else {
      var node := t.node;
      if key < node.key {
        var l;
        l, ret := Insert(node.left, key, value);
        node := node.(left := l);
      } else if key > node.key {
        var r;
        r, ret := Insert(node.right, key, value);
        node := node.(right := r);
      } else {
        ret := Some(node.value);
        node := node.(value := value);
      }
      if ret.None? {
        node := node.(weight := node.weight + 1);
      }
      InsertedBelow(t.node, key, value, node, ret);
      if ret.None? {
        t' := RebalanceAfterInsert(Filled(node));
        InsertRebalanced(t, key, value, Filled(node), t', ret);
      } else {
        t' := Filled(node);
      }
    }
    GetAfterWrite(t, t', key, value);
  }

  /**
   * Tree::remove: descend by key. At the matching node: a leaf is dropped;
   * otherwise the node takes over the pair of its predecessor (when it has a
   * left child) or of its successor, loses one in weight, and that pair's key
   * is removed from the subtree it came from. This node is not rebalanced.
   * Every node above a removal loses one in weight and is rebalanced.
   * A missing key leaves the tree as it was.
   */
  method Remove<V>(t: Tree<V>, key: int) returns (t': Tree<V>, ret: Option<V>)
    requires Ordered(t) && WeightsValid(t)
    ensures Ordered(t') && WeightsValid(t')
    ensures ret == Lookup(ToMap(t), key)
    ensures ToMap(t') == ToMap(t) - {key}
    ensures Get(t', key) == None
    ensures forall k :: k != key ==> Get(t', k) == Get(t, k)
    ensures ret.None? ==> t' == t
    ensures ret.Some? ==> Weight(t') == Weight(t) - 1
    decreases t
  {
    ret := None;
    t' := t;
    if t.Filled? {
      var node := t.node;
      if key == node.key {
        ret := Some(node.value);
        if node.left.Empty? && node.right.Empty? {
          t' := Empty;
          RemovedLeaf(node);
        } else if node.left.Filled? {
          var k, v := Predecessor(node.left);
          node := node.(key := k, value := v, weight := node.weight - 1);
          var l, _ := Remove(node.left, k);
          node := node.(left := l);
          RemovedViaPredecessor(t.node, k, v, l);
          t' := Filled(node);
        } else {
          var k, v := Successor(node.right);
          node := node.(key := k, value := v, weight := node.weight - 1);
          var r, _ := Remove(node.right, k);
          node := node.(right := r);
          RemovedViaSuccessor(t.node, k, v, r);
          t' := Filled(node);
        }
      } else {
        if key < node.key {
          var l;
          l, ret := Remove(node.left, key);
          node := node.(left := l);
        } else if key > node.key {
          var r;
          r, ret := Remove(node.right, key);
          node := node.(right := r);
        }
        if ret.Some? {
          RemovedBelow(t.node, key, node, ret);
          node := node.(weight := node.weight - 1);
          t' := RebalanceAfterRemove(Filled(node));
          RemoveRebalanced(t, key, Filled(node), t', ret);
        } else {
          NotFoundBelow(t.node, key, node);
        }
      }
    }
    GetAfterDelete(t, t', key);
  }

  // ---------------------------------------------------------------------------
  // One step of insertion, at the node whose subtree received the key

  lemma InsertedIntoEmpty<V>(key: int, value: V)
    ensures Written(Empty, key, value, Filled(NewNode(key, value)), None)
  {
    var n := NewNode(key, value);
    assert Keys(n.left) == {} && Keys(n.right) == {};
  }

  /**
   * The node `n` after its left or right subtree received the key, or after
   * its own value was overwritten, and after gaining one in weight on a
   * fresh key, is `n` written at `key`.
   */
  lemma InsertedBelow<V>(n: Node<V>, key: int, value: V, m: Node<V>, ret: Option<V>)
    requires Ordered(Filled(n)) && WeightsValid(Filled(n))
    requires key < n.key ==> Written(n.left, key, value, m.left, ret) && m == n.(left := m.left, weight := m.weight)
    requires key > n.key ==> Written(n.right, key, value, m.right, ret) && m == n.(right := m.right, weight := m.weight)
    requires key == n.key ==> ret == Some(n.value) && m == n.(value := value)
    requires m.weight == if ret.None? then n.weight + 1 else n.weight
    ensures Written(Filled(n), key, value, Filled(m), ret)
  {
    if key < n.key {
      InsertedLeft(n, m.left, key, value, ret);
    } else if key > n.key {
      InsertedRight(n, m.right, key, value, ret);
    } else {
      SameShapeReflexive(n.left);
      SameShapeReflexive(n.right);
    }
  }

  lemma InsertedLeft<V>(n: Node<V>, l: Tree<V>, key: int, value: V, ret: Option<V>)
    requires Ordered(Filled(n)) && WeightsValid(Filled(n)) && key < n.key
    requires Written(n.left, key, value, l, ret)
    ensures Written(Filled(n), key, value, Filled(n.(left := l, weight := if ret.None? then n.weight + 1 else n.weight)), ret)
  {
    SameShapeReflexive(n.right);
    WriteLeft(n, l, key, value);
    if ret.Some? {
      SameShapeKeys(l, n.left);
    }
  }

  lemma InsertedRight<V>(n: Node<V>, r: Tree<V>, key: int, value: V, ret: Option<V>)
    requires Ordered(Filled(n)) && WeightsValid(Filled(n)) && key > n.key
    requires Written(n.right, key, value, r, ret)
    ensures Written(Filled(n), key, value, Filled(n.(right := r, weight := if ret.None? then n.weight + 1 else n.weight)), ret)
  {
    SameShapeReflexive(n.left);
    WriteRight(n, r, key, value);
    if ret.Some? {
      SameShapeKeys(r, n.right);
    }
  }

  /** Rebalancing a node that gained a pair keeps what the write promised. */
  lemma InsertRebalanced<V>(t: Tree<V>, key: int, value: V, pre: Tree<V>, t': Tree<V>, ret: Option<V>)
    requires Written(t, key, value, pre, ret) && ret.None?
    requires SameContents(pre, t') && WeightsValid(t') && Weight(t') == Weight(pre)
    ensures Written(t, key, value, t', ret)
  {
  }

  /** After a write of `value` at `key`, get finds it there and everything else as before. */
  lemma GetAfterWrite<V>(t: Tree<V>, t': Tree<V>, key: int, value: V)
    requires Ordered(t) && Ordered(t') && ToMap(t') == ToMap(t)[key := value]
    ensures Get(t', key) == Some(value)
    ensures forall k :: k != key ==> Get(t', k) == Get(t, k)
  {
  }

  // ---------------------------------------------------------------------------
  // One step of removal

  lemma RemovedLeaf<V>(n: Node<V>)
    requires Ordered(Filled(n)) && WeightsValid(Filled(n)) && n.left.Empty? && n.right.Empty?
    ensures Deleted(Filled(n), n.key, Empty, Some(n.value))
  {
    assert ToMap(Filled(n)) == map[n.key := n.value];
  }

  /** The matched node takes over its predecessor's pair, which then leaves the left subtree. */
  lemma RemovedViaPredecessor<V>(n: Node<V>, k: int, v: V, l: Tree<V>)
    requires Ordered(Filled(n)) && WeightsValid(Filled(n)) && n.left.Filled?
    requires k in ToMap(n.left) && ToMap(n.left)[k] == v && forall x :: x in Keys(n.left) ==> x <= k
    requires Ordered(l) && WeightsValid(l)
    requires ToMap(l) == ToMap(n.left) - {k} && Weight(l) == Weight(n.left) - 1
    ensures Deleted(Filled(n), n.key, Filled(n.(key := k, value := v, weight := n.weight - 1, left := l)), Some(n.value))
  {
    PredecessorMap(n, k, v, l);
    PredecessorOrder(n, k, v, l);
  }

  lemma PredecessorMap<V>(n: Node<V>, k: int, v: V, l: Tree<V>)
    requires Ordered(Filled(n)) && WeightsValid(Filled(n)) && n.left.Filled?
    requires k in ToMap(n.left) && ToMap(n.left)[k] == v
    requires ToMap(l) == ToMap(n.left) - {k}
    ensures ToMap(Filled(n.(key := k, value := v, weight := n.weight - 1, left := l))) == ToMap(Filled(n)) - {n.key}
  {
    var m := n.(key := k, value := v, weight := n.weight - 1, left := l);
    Restore(ToMap(n.left), k, v);
    DropRoot(n);
    assert ToMap(Filled(m)) == ToMap(l)[k := v] + ToMap(n.right);
  }

  lemma PredecessorOrder<V>(n: Node<V>, k: int, v: V, l: Tree<V>)
    requires Ordered(Filled(n)) && WeightsValid(Filled(n)) && n.left.Filled?
    requires k in ToMap(n.left) && forall x :: x in Keys(n.left) ==> x <= k
    requires Ordered(l) && ToMap(l) == ToMap(n.left) - {k}
    ensures Ordered(Filled(n.(key := k, value := v, weight := n.weight - 1, left := l)))
  {
    assert k in Keys(n.left) && k < n.key;
    assert Ordered(n.right);
    forall x | x in Keys(l) ensures x < k {
      assert x in ToMap(l);
    }
    forall x | x in Keys(n.right) ensures k < x {
    }
  }

  /** The matched node takes over its successor's pair, which then leaves the right subtree. */
  lemma RemovedViaSuccessor<V>(n: Node<V>, k: int, v: V, r: Tree<V>)
    requires Ordered(Filled(n)) && WeightsValid(Filled(n)) && n.left.Empty? && n.right.Filled?
    requires k in ToMap(n.right) && ToMap(n.right)[k] == v && forall x :: x in Keys(n.right) ==> k <= x
    requires Ordered(r) && WeightsValid(r)
    requires ToMap(r) == ToMap(n.right) - {k} && Weight(r) == Weight(n.right) - 1
    ensures Deleted(Filled(n), n.key, Filled(n.(key := k, value := v, weight := n.weight - 1, right := r)), Some(n.value))
  {
    var m := n.(key := k, value := v, weight := n.weight - 1, right := r);
    DropRoot(n);
    assert ToMap(Filled(n)) - {n.key} == ToMap(n.right);
    assert ToMap(Filled(m)) == map[k := v] + ToMap(r);
    SingletonFirst(ToMap(n.right), k, v);
    assert k in Keys(n.right) && n.key < k;
    forall x | x in Keys(r) ensures k < x {
      assert x in ToMap(r);
    }
  }

  /**
   * The node `n` after the key was removed from its left or right subtree,
   * once it has lost one in weight, is `n` with the key removed.
   */
  lemma RemovedBelow<V>(n: Node<V>, key: int, m: Node<V>, ret: Option<V>)
    requires Ordered(Filled(n)) && WeightsValid(Filled(n)) && key != n.key && ret.Some?
    requires key < n.key ==> Deleted(n.left, key, m.left, ret) && m == n.(left := m.left)
    requires key > n.key ==> Deleted(n.right, key, m.right, ret) && m == n.(right := m.right)
    ensures m.weight >= 1
    ensures Deleted(Filled(n), key, Filled(m.(weight := m.weight - 1)), ret)
  {
    if key < n.key {
      DeleteLeft(n, m.left, key);
      assert Keys(m.left) <= Keys(n.left);
    } else {
      DeleteRight(n, m.right, key);
      assert Keys(m.right) <= Keys(n.right);
    }
  }

  /** A key missing below `n` is missing from `n`'s subtree, which stays as it was. */
  lemma NotFoundBelow<V>(n: Node<V>, key: int, m: Node<V>)
    requires Ordered(Filled(n)) && WeightsValid(Filled(n)) && key != n.key
    requires key < n.key ==> Deleted(n.left, key, m.left, None) && m == n.(left := m.left)
    requires key > n.key ==> Deleted(n.right, key, m.right, None) && m == n.(right := m.right)
    ensures m == n && Deleted(Filled(n), key, Filled(n), None)
  {
  }

  /** Rebalancing a node that lost a pair keeps what the removal promised. */
  lemma RemoveRebalanced<V>(t: Tree<V>, key: int, pre: Tree<V>, t': Tree<V>, ret: Option<V>)
    requires Deleted(t, key, pre, ret) && ret.Some?
    requires SameContents(pre, t') && WeightsValid(t') && Weight(t') == Weight(pre)
    ensures Deleted(t, key, t', ret)
  {
  }

  /** After `key` leaves the dictionary, get misses it and finds everything else as before. */
  lemma GetAfterDelete<V>(t: Tree<V>, t': Tree<V>, key: int)
    requires Ordered(t) && Ordered(t') && ToMap(t') == ToMap(t) - {key}
    ensures Get(t', key) == None
    ensures forall k :: k != key ==> Get(t', k) == Get(t, k)
  {
  }
}
