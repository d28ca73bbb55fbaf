/**
 * The read-only descents of src/lib.rs: `get`, `get_mut` and the rank query
 * `get_nth`, each split as in the source into a public entry that answers
 * `None` on an empty tree and an internal descent that assumes a node.
 */
module Lookups {
  import opened Options
  import opened Trees

  /** Tree::get_internal: descend by key comparison from a node. */
  function GetInternal<V>(t: Tree<V>, key: int): (r: Option<V>)
    requires t.Filled?
    ensures Ordered(t) ==> r == Lookup(ToMap(t), key)
    decreases t
  {
    var n := t.node;
    if key < n.key then
      if n.left.Filled? then GetInternal(n.left, key) else None
    else if key > n.key then
      if n.right.Filled? then GetInternal(n.right, key) else None
    else
      Some(n.value)
  }

  /** Tree::get: the value stored at `key`, or None. */
  function Get<V>(t: Tree<V>, key: int): (r: Option<V>)
    ensures t.Empty? ==> r == None
    ensures Ordered(t) ==> r == Lookup(ToMap(t), key)
  {
    if t.Filled? then GetInternal(t, key) else None
  }

  /**
   * Tree::get_mut_internal. The mutable reference the source hands out is
   * modelled by what a caller can do with it: `write` maps the value found
   * to the value the caller stores through the reference, and the result is
   * the tree afterwards (None when the key is absent).
   */
  function GetMutInternal<V>(t: Tree<V>, key: int, write: V -> V): (r: Option<Tree<V>>)
    requires t.Filled?
    ensures r.Some? ==> key in Keys(t) && SameShape(r.value, t)
    ensures Ordered(t) ==> (r.Some? <==> key in ToMap(t))
    ensures Ordered(t) && r.Some? ==> ToMap(r.value) == ToMap(t)[key := write(ToMap(t)[key])]
    decreases t
  {
    var n := t.node;
    SameShapeReflexive(n.left);
    SameShapeReflexive(n.right);
    if key < n.key then
      if n.left.Filled? then
        match GetMutInternal(n.left, key, write)
        case Some(l) =>
          WriteLeft(n, l, key, write(ToMap(n.left)[key]));
          Some(Filled(n.(left := l)))
        case None => None
      else None
    else if key > n.key then
      if n.right.Filled? then
        match GetMutInternal(n.right, key, write)
        case Some(r) =>
          WriteRight(n, r, key, write(ToMap(n.right)[key]));
          Some(Filled(n.(right := r)))
        case None => None
      else None
    else
      Some(Filled(n.(value := write(n.value))))
  }

  /** Tree::get_mut: None on an empty tree, otherwise the internal descent. */
  function GetMut<V>(t: Tree<V>, key: int, write: V -> V): (r: Option<Tree<V>>)
    ensures t.Empty? ==> r == None
    ensures Ordered(t) ==> (r.Some? <==> key in ToMap(t))
    ensures Ordered(t) && r.Some? ==>
      && ToMap(r.value) == ToMap(t)[key := write(ToMap(t)[key])]
      && SameShape(r.value, t)
  {
    if t.Filled? then GetMutInternal(t, key, write) else None
  }

  /**
   * Tree::get_nth_internal: compare the index with the left child's weight;
   * equal is this node, larger goes right with the index shifted past the
   * left subtree and this node, smaller goes left.
   */
  function GetNthInternal<V>(t: Tree<V>, index: nat): (r: Option<(int, V)>)
    requires t.Filled?
    ensures WeightsValid(t) ==>
      r == if index < |Elements(t)| then Some(Elements(t)[index]) else None
    decreases t
  {
    var n := t.node;
    WeightIsSize(n.left);
    WeightIsSize(n.right);
    var wtL := if n.left.Filled? then n.left.node.weight else 0;
    var idxAdj := index - wtL;
    if idxAdj == 0 then
      Some((n.key, n.value))
    else if idxAdj > 0 && n.right.Filled? then
      GetNthInternal(n.right, idxAdj - 1)
    else if n.left.Filled? then
      GetNthInternal(n.left, index)
    else
      None
  }

  /** Tree::get_nth: the pair at 0-based ascending position `index`, or None. */
  function GetNth<V>(t: Tree<V>, index: nat): (r: Option<(int, V)>)
    ensures t.Empty? ==> r == None
    ensures WeightsValid(t) ==>
      r == if index < |Elements(t)| then Some(Elements(t)[index]) else None
    ensures WeightsValid(t) ==> (r.Some? <==> index < Weight(t))
  {
    WeightIsSize(t);
    if t.Filled? then GetNthInternal(t, index) else None
  }

  /** Successive ranks of an ordered tree give strictly ascending keys. */
  lemma GetNthAscending<V>(t: Tree<V>, i: nat, j: nat)
    requires Ordered(t) && WeightsValid(t)
    requires i < j < Weight(t)
    ensures GetNth(t, i).Some? && GetNth(t, j).Some?
    ensures GetNth(t, i).value.0 < GetNth(t, j).value.0
    ensures GetNth(t, i).value.0 in ToMap(t)
    ensures ToMap(t)[GetNth(t, i).value.0] == GetNth(t, i).value.1
  {
    WeightIsSize(t);
    OrderedIsIncreasing(t);
    ElementValue(t, i);
  }

  /** Every in-order pair of an ordered tree is an entry of its dictionary. */
  lemma {:induction false} ElementValue<V>(t: Tree<V>, i: nat)
    requires Ordered(t) && i < |Elements(t)|
    ensures Elements(t)[i].0 in ToMap(t) && ToMap(t)[Elements(t)[i].0] == Elements(t)[i].1
  {
    var n := t.node;
    var nl := |Elements(n.left)|;
    if i < nl {
      ElementValue(n.left, i);
      ElementKeyInKeys(n.left, i);
      var x := Elements(t)[i].0;
      assert x < n.key && x !in Keys(n.right);
    } else if nl < i {
      ElementValue(n.right, i - nl - 1);
    }
  }
}
