/**
 The tree: a root and the node count it keeps, with insertion, deletion and
 search. Insertion and deletion descend recursively and rebalance every
 ancestor of the changed position on the way back up, which is the order in
 which the bottom-up walk over parent links visits them.
 */
module AvlTrees {
  import opened AvlNode
  import opened TreeShape
  import opened Rotations

  /** What `contains` returns for an absent key. */
  const NodeNotFound: int := -1

  /** The depth of the root node. */
  const DepthOfRoot: int := 0

  /** An AVL tree: the root node (`Nil` when the tree is empty) and the
      number of nodes it holds. */
  datatype AvlTree = AvlTree(root: Tree, size: nat)

  /** The invariant every tree keeps between public operations. */
  ghost predicate Valid(t: AvlTree)
  {
    Avl(t.root) && t.size == NodeCount(t.root)
  }

  /** The keys occurring in a sequence. */
  ghost function SeqKeys(s: seq<int>): set<int>
  {
    set x | x in s
  }

  /** The empty tree: no root, size 0. */
  function Empty(): (t: AvlTree)
    ensures Valid(t) && Keys(t.root) == {} && t.size == 0
  {
    AvlTree(Nil, 0)
  }

  /** The number of nodes, which is the number of distinct keys stored. */
  function Size(t: AvlTree): (n: int)
    requires Valid(t)
    ensures n == |Keys(t.root)|
  {
    BstNodeCountIsKeyCount(t.root);
    t.size
  }

  /** The node holding `k`, found by descending from `t` by key comparison;
      `Nil` when the descent runs off the tree. */
  function FindNode(t: Tree, k: int): (r: Tree)
    ensures r.Node? ==> r.key == k && k in Keys(t)
    ensures Bst(t) && k in Keys(t) ==> r.Node?
  {
    if t.Nil? then Nil
    else if t.key == k then t
    else
      SearchDirection(t, k);
      if t.key < k then FindNode(t.right, k) else FindNode(t.left, k)
  }

  /** In a search tree a key other than the node's own lies on the side the
      comparison with the node's key points to. */
  lemma SearchDirection(t: Tree, k: int)
    requires t.Node?
    ensures Bst(t) && k in Keys(t) && k < t.key ==> k in Keys(t.left) && k !in Keys(t.right)
    ensures Bst(t) && k in Keys(t) && t.key < k ==> k in Keys(t.right) && k !in Keys(t.left)
  {
    if Bst(t) && k in Keys(t.left) {
      assert k < t.key;
    }
    if Bst(t) && k in Keys(t.right) {
      assert t.key < k;
    }
  }

  /** Descends to where `k` belongs and attaches a new leaf there, then
      rebalances each ancestor on the way back up. The flag says whether a
      node was added; when `k` is met on the way down nothing changes. */
  function Insert(t: Tree, k: int): (r: (Tree, bool))
    requires HeightsOk(t)
    ensures HeightsOk(r.0)
    ensures Keys(r.0) == Keys(t) + {k}
    ensures r.1 ==> NodeCount(r.0) == NodeCount(t) + 1
    ensures !r.1 ==> r.0 == t && k in Keys(t)
  {
    if t.Nil? then (NewNode(k), true)
    else if t.key == k then (t, false)
    else if t.key < k then
      var (sub, added) := Insert(t.right, k);
      if added then (Adjust(SetRightChild(t, sub)), true) else (t, false)
    else
      var (sub, added) := Insert(t.left, k);
      if added then (Adjust(SetLeftChild(t, sub)), true) else (t, false)
  }

  /** Insertion keeps correct heights and the balance bound, and grows the
      height by at most one. */
  lemma {:induction false} InsertKeepsShape(t: Tree, k: int)
    requires AvlShape(t)
    ensures AvlShape(Insert(t, k).0)
    ensures Height(t) <= Height(Insert(t, k).0) <= Height(t) + 1
  {
    if t.Node? && t.key != k {
      HeightLowerBound(t.left);
      HeightLowerBound(t.right);
      if t.key < k {
        InsertKeepsShape(t.right, k);
        var r := Insert(t.right, k);
        if r.1 {
          AdjustRestoresBalance(SetRightChild(t, r.0));
        }
      } else {
        InsertKeepsShape(t.left, k);
        var r := Insert(t.left, k);
        if r.1 {
          AdjustRestoresBalance(SetLeftChild(t, r.0));
        }
      }
    }
  }

  /** Insertion keeps the search tree ordering and adds a node exactly when
      the key was absent. */
  lemma {:induction false} InsertKeepsBst(t: Tree, k: int)
    requires Bst(t) && HeightsOk(t)
    ensures Bst(Insert(t, k).0)
    ensures Insert(t, k).1 <==> k !in Keys(t)
  {
    if t.Node? && t.key != k {
      if t.key < k {
        InsertKeepsBst(t.right, k);
        var r := Insert(t.right, k);
        if r.1 {
          assert Bst(SetRightChild(t, r.0));
        }
        assert k !in Keys(t.left);
      } else {
        InsertKeepsBst(t.left, k);
        var r := Insert(t.left, k);
        if r.1 {
          assert Bst(SetLeftChild(t, r.0));
        }
        assert k !in Keys(t.right);
      }
    }
  }

  /** Insertion keeps all three invariants, adds a node exactly when the key
      was absent, and grows the height by at most one. */
  lemma InsertKeepsAvl(t: Tree, k: int)
    requires Avl(t)
    ensures Avl(Insert(t, k).0)
    ensures Insert(t, k).1 <==> k !in Keys(t)
    ensures Height(t) <= Height(Insert(t, k).0) <= Height(t) + 1
  {
    InsertKeepsShape(t, k);
    InsertKeepsBst(t, k);
  }

  /** Adds `k` if it is absent. Returns whether it was added; a present key
      leaves the tree exactly as it was. */
  function Add(t: AvlTree, k: int): (r: (bool, AvlTree))
    requires Valid(t)
    ensures Valid(r.1)
    ensures r.0 <==> k !in Keys(t.root)
    ensures Keys(r.1.root) == Keys(t.root) + {k}
    ensures r.1.size == if r.0 then t.size + 1 else t.size
    ensures !r.0 ==> r.1 == t
  {
    if t.root.Nil? then (true, AvlTree(NewNode(k), t.size + 1))
    else
      InsertKeepsAvl(t.root, k);
      var (root, added) := Insert(t.root, k);
      if added then (true, AvlTree(root, t.size + 1)) else (false, t)
  }

  /** The key of the leftmost node of a non-empty subtree: the end of the
      walk down left children. */
  function MinKey(t: Tree): (m: int)
    requires t.Node?
    ensures m in Keys(t) && m == InOrder(t)[0]
    ensures Bst(t) ==> forall x :: x in Keys(t) ==> m <= x
  {
    if t.left.Nil? then t.key else MinKey(t.left)
  }

  /** Splices out the leftmost node (which has no left child, so its right
      child takes its place) and rebalances each ancestor on the way up. */
  function RemoveMin(t: Tree): (r: Tree)
    requires t.Node? && HeightsOk(t)
    ensures HeightsOk(r)
    ensures InOrder(t) == [MinKey(t)] + InOrder(r)
    ensures NodeCount(r) == NodeCount(t) - 1
  {
    if t.left.Nil? then t.right
    else Adjust(SetLeftChild(t, RemoveMin(t.left)))
  }

  lemma {:induction false} RemoveMinKeepsShape(t: Tree)
    requires t.Node? && AvlShape(t)
    ensures AvlShape(RemoveMin(t))
    ensures Height(t) - 1 <= Height(RemoveMin(t)) <= Height(t)
  {
    HeightLowerBound(t.left);
    HeightLowerBound(t.right);
    if t.left.Node? {
      RemoveMinKeepsShape(t.left);
      AdjustRestoresBalance(SetLeftChild(t, RemoveMin(t.left)));
    }
  }

  lemma {:induction false} RemoveMinKeepsBst(t: Tree)
    requires t.Node? && Bst(t) && HeightsOk(t)
    ensures Bst(RemoveMin(t))
    ensures Keys(RemoveMin(t)) == Keys(t) - {MinKey(t)}
  {
    if t.left.Nil? {
      assert t.key !in Keys(t.right);
    } else {
      RemoveMinKeepsBst(t.left);
      assert Bst(SetLeftChild(t, RemoveMin(t.left)));
      assert MinKey(t) !in Keys(t.right);
    }
  }

  /** Removing the minimum keeps all three invariants, removes exactly the
      minimum key, and shrinks the height by at most one. */
  lemma RemoveMinKeepsAvl(t: Tree)
    requires t.Node? && Avl(t)
    ensures Avl(RemoveMin(t))
    ensures Keys(RemoveMin(t)) == Keys(t) - {MinKey(t)}
    ensures Height(t) - 1 <= Height(RemoveMin(t)) <= Height(t)
  {
    RemoveMinKeepsShape(t);
    RemoveMinKeepsBst(t);
  }

  /** Removes the node holding `k`. A node with two children takes the key
      of its successor, the minimum of its right subtree, and that node is
      spliced out instead; a node with at most one child is replaced by that
      child. Every ancestor of the spliced node is rebalanced on the way up. */
  function Remove(t: Tree, k: int): (r: Tree)
    requires HeightsOk(t) && FindNode(t, k).Node?
    ensures HeightsOk(r)
    ensures NodeCount(r) == NodeCount(t) - 1
  {
    if t.key == k then
      if t.left.Node? && t.right.Node? then
        Adjust(SetRightChild(SetKey(t, MinKey(t.right)), RemoveMin(t.right)))
      else if t.left.Node? then t.left
      else t.right
    else if t.key < k then Adjust(SetRightChild(t, Remove(t.right, k)))
    else Adjust(SetLeftChild(t, Remove(t.left, k)))
  }

  lemma {:induction false} RemoveKeepsShape(t: Tree, k: int)
    requires AvlShape(t) && FindNode(t, k).Node?
    ensures AvlShape(Remove(t, k))
    ensures Height(t) - 1 <= Height(Remove(t, k)) <= Height(t)
  {
    HeightLowerBound(t.left);
    HeightLowerBound(t.right);
    if t.key == k {
      if t.left.Node? && t.right.Node? {
        RemoveMinKeepsShape(t.right);
        AdjustRestoresBalance(SetRightChild(SetKey(t, MinKey(t.right)), RemoveMin(t.right)));
      }
    } else if t.key < k {
      RemoveKeepsShape(t.right, k);
      AdjustRestoresBalance(SetRightChild(t, Remove(t.right, k)));
    } else {
      RemoveKeepsShape(t.left, k);
      AdjustRestoresBalance(SetLeftChild(t, Remove(t.left, k)));
    }
  }

  /** The two-children case: the node takes its successor's key and the
      successor is removed from the right subtree. */
  lemma SuccessorSwapKeepsBst(t: Tree)
    requires t.Node? && t.left.Node? && t.right.Node?
    requires Bst(t) && HeightsOk(t)
    ensures Bst(SetRightChild(SetKey(t, MinKey(t.right)), RemoveMin(t.right)))
    ensures Keys(SetRightChild(SetKey(t, MinKey(t.right)), RemoveMin(t.right))) == Keys(t) - {t.key}
  {
    var m := MinKey(t.right);
    RemoveMinKeepsBst(t.right);
    var sub := RemoveMin(t.right);
    var n := SetRightChild(SetKey(t, m), sub);
    assert n == Node(m, t.height, t.left, sub);
    assert m in Keys(t.right) && t.key < m;
    forall x | x in Keys(t.left) ensures x < m {
      assert x < t.key;
    }
    forall x | x in Keys(sub) ensures m < x {
      assert x in Keys(t.right) && x != m;
    }
    assert Bst(n);
    assert t.key !in Keys(t.left) && t.key !in Keys(t.right);
    assert Keys(n) == Keys(t.left) + {m} + Keys(sub);
    forall x ensures x in Keys(n) <==> x in Keys(t) - {t.key} {
      assert x in Keys(n) <==> x in Keys(t.left) || x == m || x in Keys(sub);
    }
  }

  lemma {:induction false} RemoveKeepsBst(t: Tree, k: int)
    requires Bst(t) && HeightsOk(t) && k in Keys(t)
    ensures Bst(Remove(t, k))
    ensures Keys(Remove(t, k)) == Keys(t) - {k}
  {
    if t.key == k {
      assert k !in Keys(t.left) && k !in Keys(t.right);
      if t.left.Node? && t.right.Node? {
        SuccessorSwapKeepsBst(t);
      }
    } else if t.key < k {
      assert k in Keys(t.right);
      RemoveKeepsBst(t.right, k);
      var sub := Remove(t.right, k);
      assert forall x :: x in Keys(sub) ==> t.key < x;
      assert Bst(SetRightChild(t, sub));
      assert k !in Keys(t.left);
    } else {
      assert k in Keys(t.left);
      RemoveKeepsBst(t.left, k);
      var sub := Remove(t.left, k);
      assert forall x :: x in Keys(sub) ==> x < t.key;
      assert Bst(SetLeftChild(t, sub));
      assert k !in Keys(t.right);
    }
  }

  /** Removal keeps all three invariants, removes exactly `k`, and shrinks
      the height by at most one. */
  lemma RemoveKeepsAvl(t: Tree, k: int)
    requires Avl(t) && k in Keys(t)
    ensures Avl(Remove(t, k))
    ensures Keys(Remove(t, k)) == Keys(t) - {k}
    ensures Height(t) - 1 <= Height(Remove(t, k)) <= Height(t)
  {
    RemoveKeepsShape(t, k);
    RemoveKeepsBst(t, k);
  }

  /** Removes `k` if it is present. Returns whether it was removed; an
      absent key leaves the tree exactly as it was. */
  function Delete(t: AvlTree, k: int): (r: (bool, AvlTree))
    requires Valid(t)
    ensures Valid(r.1)
    ensures r.0 <==> k in Keys(t.root)
    ensures Keys(r.1.root) == Keys(t.root) - {k}
    ensures r.1.size == if r.0 then t.size - 1 else t.size
    ensures !r.0 ==> r.1 == t
  {
    if FindNode(t.root, k).Nil? then (false, t)
    else
      RemoveKeepsAvl(t.root, k);
      (true, AvlTree(Remove(t.root, k), t.size - 1))
  }

  /** Adding an absent key and deleting it again restores the key set and
      the size: the two operations are inverse on the set the tree holds
      (the shape may differ). */
  lemma AddThenDelete(t: AvlTree, k: int)
    requires Valid(t) && k !in Keys(t.root)
    ensures Add(t, k).0 && Delete(Add(t, k).1, k).0
    ensures Keys(Delete(Add(t, k).1, k).1.root) == Keys(t.root)
    ensures Delete(Add(t, k).1, k).1.size == t.size
  {
    assert (Keys(t.root) + {k}) - {k} == Keys(t.root);
  }

  /** Deleting a present key and adding it again restores the key set and
      the size. */
  lemma DeleteThenAdd(t: AvlTree, k: int)
    requires Valid(t) && k in Keys(t.root)
    ensures Delete(t, k).0 && Add(Delete(t, k).1, k).0
    ensures Keys(Add(Delete(t, k).1, k).1.root) == Keys(t.root)
    ensures Add(Delete(t, k).1, k).1.size == t.size
  {
    assert (Keys(t.root) - {k}) + {k} == Keys(t.root);
  }

  /** The keys held by the nodes `d` edges below the top of `t`. */
  ghost function KeysAtDepth(t: Tree, d: nat): set<int>
  {
    if t.Nil? then {}
    else if d == 0 then {t.key}
    else KeysAtDepth(t.left, d - 1) + KeysAtDepth(t.right, d - 1)
  }

  lemma {:induction false} KeysAtDepthAreKeys(t: Tree, d: nat)
    ensures KeysAtDepth(t, d) <= Keys(t)
  {
    if t.Node? && d > 0 {
      KeysAtDepthAreKeys(t.left, d - 1);
      KeysAtDepthAreKeys(t.right, d - 1);
    }
  }

  /** In a search tree a key sits at one depth only. */
  lemma {:induction false} DepthIsUnique(t: Tree, k: int, d1: nat, d2: nat)
    requires Bst(t)
    requires k in KeysAtDepth(t, d1) && k in KeysAtDepth(t, d2)
    ensures d1 == d2
  {
    if d1 > 0 && d2 > 0 {
      KeysAtDepthAreKeys(t.left, d1 - 1);
      KeysAtDepthAreKeys(t.right, d1 - 1);
      KeysAtDepthAreKeys(t.left, d2 - 1);
      KeysAtDepthAreKeys(t.right, d2 - 1);
      if k in KeysAtDepth(t.left, d1 - 1) {
        assert k !in Keys(t.right);
        DepthIsUnique(t.left, k, d1 - 1, d2 - 1);
      } else {
        assert k !in Keys(t.left);
        DepthIsUnique(t.right, k, d1 - 1, d2 - 1);
      }
    } else if d1 > 0 {
      KeysAtDepthAreKeys(t.left, d1 - 1);
      KeysAtDepthAreKeys(t.right, d1 - 1);
    } else if d2 > 0 {
      KeysAtDepthAreKeys(t.left, d2 - 1);
      KeysAtDepthAreKeys(t.right, d2 - 1);
    }
  }

  /** `sub` sits `depth` edges below the top of `t`: whatever is `j` levels
      into `sub` is `depth + j` levels into `t`. */
  ghost predicate PlacedAt(t: Tree, sub: Tree, depth: nat)
  {
    forall j: nat :: KeysAtDepth(sub, j) <= KeysAtDepth(t, depth + j)
  }

  lemma PlacedAtChildren(t: Tree, sub: Tree, depth: nat)
    requires sub.Node? && PlacedAt(t, sub, depth)
    ensures PlacedAt(t, sub.left, depth + 1) && PlacedAt(t, sub.right, depth + 1)
  {
    forall j: nat ensures KeysAtDepth(sub.left, j) <= KeysAtDepth(t, depth + 1 + j)
                       && KeysAtDepth(sub.right, j) <= KeysAtDepth(t, depth + 1 + j) {
      assert KeysAtDepth(sub, j + 1) <= KeysAtDepth(t, depth + (j + 1));
    }
  }

  /** Searches for `k` from the root by key comparison, counting the edges
      followed. Returns that count (the depth of `k`'s node, at most the
      tree's height) when `k` is present and -1 exactly when it is absent. */
  method Contains(t: AvlTree, k: int) returns (depth: int)
    requires Valid(t)
    ensures depth == NodeNotFound <==> k !in Keys(t.root)
    ensures depth != NodeNotFound ==>
      0 <= depth <= Height(t.root) && k in KeysAtDepth(t.root, depth)
  {
    var root := t.root;
    assert Bst(root) && HeightsOk(root);
    var current := root;
    var d: nat := DepthOfRoot;
    while current.Node? && current.key != k
      invariant Bst(current) && HeightsOk(current)
      invariant k in Keys(root) <==> k in Keys(current)
      invariant current.Node? ==> d + Height(current) <= Height(root)
      invariant PlacedAt(root, current, d)
      decreases current
    {
      HeightLowerBound(current.left);
      HeightLowerBound(current.right);
      SearchDirection(current, k);
      PlacedAtChildren(root, current, d);
      d := d + 1;
      current := if current.key < k then current.right else current.left;
    }
    if current.Nil? {
      depth := NodeNotFound;
    } else {
      HeightLowerBound(current);
      assert KeysAtDepth(current, 0) <= KeysAtDepth(root, d + 0);
      depth := d;
    }
  }

  lemma SeqKeysAppend(s: seq<int>, x: int)
    ensures x in SeqKeys(s) <==> x in s
    ensures SeqKeys(s + [x]) == SeqKeys(s) + {x}
  {
  }

  /** Extends the record of first occurrences by the verdict on `data[i]`. */
  lemma FirstOccurrenceStep(data: seq<int>, i: nat, accepted: seq<bool>, b: bool)
    requires i < |data| && |accepted| == i
    requires forall j :: 0 <= j < i ==> (accepted[j] <==> data[j] !in data[..j])
    requires b <==> data[i] !in data[..i]
    ensures forall j :: 0 <= j <= i ==> ((accepted + [b])[j] <==> data[j] !in data[..j])
  {
  }

  /** Builds a tree by adding the keys of `data` one by one; a repeated key
      is accepted only at its first occurrence. */
  method FromArray(data: seq<int>) returns (t: AvlTree, ghost accepted: seq<bool>)
    ensures Valid(t)
    ensures Keys(t.root) == SeqKeys(data)
    ensures t.size == |SeqKeys(data)|
    ensures |accepted| == |data|
    ensures forall i :: 0 <= i < |data| ==> (accepted[i] <==> data[i] !in data[..i])
  {
    t := Empty();
    accepted := [];
    var i := 0;
    while i < |data|
      invariant 0 <= i <= |data|
      invariant Valid(t)
      invariant Keys(t.root) == SeqKeys(data[..i])
      invariant |accepted| == i
      invariant forall j :: 0 <= j < i ==> (accepted[j] <==> data[j] !in data[..j])
    {
      var r := Add(t, data[i]);
      SeqKeysAppend(data[..i], data[i]);
      assert data[..i + 1] == data[..i] + [data[i]];
      FirstOccurrenceStep(data, i, accepted, r.0);
      accepted := accepted + [r.0];
      t := r.1;
      i := i + 1;
    }
    assert data[..|data|] == data;
    BstNodeCountIsKeyCount(t.root);
  }
}
