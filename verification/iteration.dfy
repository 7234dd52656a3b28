/**
 The ascending iterator: it starts at the smallest key and steps to the
 successor of the key it last returned. The cursor is the key of the next
 node to visit (keys are unique in a search tree, so the key names the node).
 Also the copy construction, which re-adds the keys the iterator produces.
 */
module TreeIteration {
  import opened Wrappers
  import opened AvlNode
  import opened TreeShape
  import opened AvlTrees

  /** The key of the minimum node, reached by walking down left children
      from the root; `None` for an empty tree. */
  function GetMin(t: Tree): (r: Option<int>)
    ensures r.None? <==> t.Nil?
    ensures r.Some? ==> r.value == InOrder(t)[0]
  {
    if t.Nil? then None else Some(MinKey(t))
  }

  /** The successor of `k` within `t`: the minimum of the right subtree of
      `k`'s node when it has one; otherwise the nearest node above it from
      which the search for `k` turned left. `None` when there is none. */
  function Successor(t: Tree, k: int): (r: Option<int>)
    ensures Bst(t) && r.Some? ==>
      && r.value in Keys(t)
      && k < r.value
      && forall x :: x in Keys(t) && k < x ==> r.value <= x
    ensures Bst(t) && r.None? ==> forall x :: x in Keys(t) ==> x <= k
  {
    if t.Nil? then None
    else if t.key == k then
      if t.right.Node? then Some(MinKey(t.right)) else None
    else if k < t.key then
      match Successor(t.left, k)
      case None => Some(t.key)
      case Some(v) => Some(v)
    else Successor(t.right, k)
  }

  /** In a search tree the successor of the i-th key of the in-order
      sequence is the (i+1)-th key, and the last key has none. */
  lemma SuccessorIsNextInOrder(t: Tree, i: int)
    requires Bst(t) && 0 <= i < |InOrder(t)|
    ensures Successor(t, InOrder(t)[i]) ==
      if i + 1 < |InOrder(t)| then Some(InOrder(t)[i + 1]) else None
  {
    var s := InOrder(t);
    KeysAreInOrder(t);
    BstIffAscending(t);
    var r := Successor(t, s[i]);
    if i + 1 < |s| {
      assert s[i + 1] in Keys(t) && s[i] < s[i + 1];
      var v := r.value;
      assert v in s;
      var j :| 0 <= j < |s| && s[j] == v;
      assert forall m :: 0 <= m <= i ==> s[m] <= s[i];
      assert forall m :: i + 1 < m < |s| ==> s[i + 1] < s[m];
      assert j == i + 1;
    } else {
      forall x | x in Keys(t) ensures x <= s[i] {
        var m :| 0 <= m < |s| && s[m] == x;
        assert m <= i;
      }
    }
  }

  /** The iterator's state: the tree it walks and the key it returns next. */
  datatype TreeIterator = TreeIterator(root: Tree, nextKey: Option<int>)

  /** A fresh iterator, positioned at the minimum key. */
  function Iterator(t: AvlTree): (it: TreeIterator)
    ensures it.root == t.root
    ensures it.nextKey.None? <==> Keys(t.root) == {}
    ensures it.nextKey.Some? ==> it.nextKey.value == InOrder(t.root)[0]
  {
    KeysAreInOrder(t.root);
    assert t.root.Node? ==> t.root.key in Keys(t.root);
    TreeIterator(t.root, GetMin(t.root))
  }

  /** The cursor holds a key still to be returned. */
  predicate HasNext(it: TreeIterator)
  {
    it.nextKey.Some?
  }

  /** Returns the cursor's key and moves the cursor to that key's successor. */
  function Next(it: TreeIterator): (r: (int, TreeIterator))
    requires HasNext(it)
    ensures r.0 == it.nextKey.value && r.1.root == it.root
    ensures Bst(it.root) && r.1.nextKey.Some? ==>
      r.0 < r.1.nextKey.value && r.1.nextKey.value in Keys(it.root)
    ensures Bst(it.root) && r.1.nextKey.Some? ==>
      forall x :: x in Keys(it.root) && r.0 < x ==> r.1.nextKey.value <= x
    ensures Bst(it.root) && r.1.nextKey.None? ==> forall x :: x in Keys(it.root) ==> x <= r.0
  {
    (it.nextKey.value, TreeIterator(it.root, Successor(it.root, it.nextKey.value)))
  }

  /** Drains a fresh iterator, as a for-each loop over the tree does: the
      keys come out strictly ascending, they are exactly the stored keys,
      and there are `size` of them. */
  method Elements(t: AvlTree) returns (keys: seq<int>)
    requires Valid(t)
    ensures keys == InOrder(t.root)
    ensures Ascending(keys)
    ensures forall x :: x in keys <==> x in Keys(t.root)
    ensures |keys| == t.size
  {
    ghost var s := InOrder(t.root);
    KeysAreInOrder(t.root);
    BstIffAscending(t.root);
    var it := Iterator(t);
    keys := [];
    while HasNext(it)
      invariant it.root == t.root
      invariant |keys| <= |s| && keys == s[..|keys|]
      invariant it.nextKey == if |keys| < |s| then Some(s[|keys|]) else None
      decreases |s| - |keys|
    {
      SuccessorIsNextInOrder(t.root, |keys|);
      var step := Next(it);
      keys := keys + [step.0];
      it := step.1;
    }
    assert keys == s;
  }

  /** Builds an independent tree holding the same keys by adding, in
      ascending order, every key the iterator of `t` produces. The copy's
      shape may differ, but its iteration order is the same. */
  method Copy(t: AvlTree) returns (c: AvlTree)
    requires Valid(t)
    ensures Valid(c)
    ensures Keys(c.root) == Keys(t.root) && c.size == t.size
    ensures InOrder(c.root) == InOrder(t.root)
  {
    var keys := Elements(t);
    ghost var accepted;
    c, accepted := FromArray(keys);
    assert SeqKeys(keys) == Keys(t.root);
    BstNodeCountIsKeyCount(t.root);
    KeysAreInOrder(c.root);
    KeysAreInOrder(t.root);
    BstIffAscending(c.root);
    BstIffAscending(t.root);
    AscendingUnique(InOrder(c.root), InOrder(t.root));
  }
}
