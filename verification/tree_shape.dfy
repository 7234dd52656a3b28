/**
 The invariants every tree satisfies between public operations: binary
 search tree ordering, correct cached heights and the AVL balance bound,
 together with the views of a tree (its key set, in-order key sequence and
 node count) that the operations' contracts are stated in.
 */
module TreeShape {
  import opened AvlNode

  /** The largest height difference between siblings that is still balanced. */
  const MaxDifference: int := 1

  function Max(a: int, b: int): int
  {
    if a < b then b else a
  }

  function Abs(a: int): int
  {
    if a < 0 then -a else a
  }

  /** The keys stored in a subtree. */
  ghost function Keys(t: Tree): set<int>
  {
    if t.Nil? then {} else Keys(t.left) + {t.key} + Keys(t.right)
  }

  /** The keys of a subtree read left to right. */
  ghost function InOrder(t: Tree): seq<int>
  {
    if t.Nil? then [] else InOrder(t.left) + [t.key] + InOrder(t.right)
  }

  /** The number of nodes in a subtree. */
  ghost function NodeCount(t: Tree): nat
  {
    if t.Nil? then 0 else NodeCount(t.left) + 1 + NodeCount(t.right)
  }

  /** The height computed from the shape alone, ignoring the cached values. */
  ghost function ShapeHeight(t: Tree): int
  {
    if t.Nil? then NullHeight else 1 + Max(ShapeHeight(t.left), ShapeHeight(t.right))
  }

  /** Keys strictly increase from left to right. */
  ghost predicate Ascending(s: seq<int>)
  {
    forall i, j :: 0 <= i < j < |s| ==> s[i] < s[j]
  }

  /** Every key of a left subtree is smaller, every key of a right subtree
      larger, than the key of the node above it. */
  ghost predicate Bst(t: Tree)
  {
    t.Node? ==>
      && Bst(t.left)
      && Bst(t.right)
      && (forall x :: x in Keys(t.left) ==> x < t.key)
      && (forall x :: x in Keys(t.right) ==> t.key < x)
  }

  /** Every cached height is one more than the larger cached height of the
      node's children, an absent child counting as -1. */
  ghost predicate HeightsOk(t: Tree)
  {
    t.Node? ==>
      && HeightsOk(t.left)
      && HeightsOk(t.right)
      && t.height == 1 + Max(Height(t.left), Height(t.right))
  }

  /** At every node the children's heights differ by at most one. */
  ghost predicate Balanced(t: Tree)
  {
    t.Node? ==>
      && Balanced(t.left)
      && Balanced(t.right)
      && Abs(Height(t.left) - Height(t.right)) <= MaxDifference
  }

  /** Correct cached heights and the balance bound. */
  ghost predicate AvlShape(t: Tree)
  {
    HeightsOk(t) && Balanced(t)
  }

  /** All three invariants of an AVL tree. */
  ghost predicate Avl(t: Tree)
  {
    Bst(t) && AvlShape(t)
  }

  lemma {:induction false} CachedHeightIsShapeHeight(t: Tree)
    requires HeightsOk(t)
    ensures Height(t) == ShapeHeight(t)
  {
    if t.Node? {
      CachedHeightIsShapeHeight(t.left);
      CachedHeightIsShapeHeight(t.right);
    }
  }

  /** With correct heights an absent subtree is the only one of height -1. */
  lemma {:induction false} HeightLowerBound(t: Tree)
    requires HeightsOk(t)
    ensures Height(t) >= NullHeight
    ensures t.Node? ==> Height(t) >= 0
  {
    if t.Node? {
      HeightLowerBound(t.left);
    }
  }

  lemma {:induction false} KeysAreInOrder(t: Tree)
    ensures forall x :: x in Keys(t) <==> x in InOrder(t)
    ensures |InOrder(t)| == NodeCount(t)
  {
    if t.Node? {
      KeysAreInOrder(t.left);
      KeysAreInOrder(t.right);
    }
  }

  /** The parts of an ascending sequence split around `k` ascend and lie
      on their own side of `k`. */
  lemma AscendingParts(a: seq<int>, k: int, b: seq<int>)
    requires Ascending(a + [k] + b)
    ensures Ascending(a) && Ascending(b)
    ensures forall x :: x in a ==> x < k
    ensures forall y :: y in b ==> k < y
  {
    var s := a + [k] + b;
    assert forall i :: 0 <= i < |a| ==> s[i] == a[i];
    assert s[|a|] == k;
    assert forall i :: 0 <= i < |b| ==> s[|a| + 1 + i] == b[i];
    forall x | x in a ensures x < k {
      var i :| 0 <= i < |a| && a[i] == x;
      assert s[i] < s[|a|];
    }
    forall y | y in b ensures k < y {
      var i :| 0 <= i < |b| && b[i] == y;
      assert s[|a|] < s[|a| + 1 + i];
    }
    forall i, j | 0 <= i < j < |b| ensures b[i] < b[j] {
      assert s[|a| + 1 + i] < s[|a| + 1 + j];
    }
  }

  /** Two ascending sequences, every key of the first below `k` and every
      key of the second above it, join around `k` into an ascending one. */
  lemma AscendingJoin(a: seq<int>, k: int, b: seq<int>)
    requires Ascending(a) && Ascending(b)
    requires forall x :: x in a ==> x < k
    requires forall y :: y in b ==> k < y
    ensures Ascending(a + [k] + b)
  {
    var s := a + [k] + b;
    assert forall i :: 0 <= i < |a| ==> s[i] == a[i];
    assert s[|a|] == k;
    assert forall i :: 0 <= i < |b| ==> s[|a| + 1 + i] == b[i];
    forall i, j | 0 <= i < j < |s| ensures s[i] < s[j] {
      if j < |a| {
      } else if i < |a| {
        assert a[i] in a;
        if j > |a| {
          assert s[j] == b[j - |a| - 1];
          assert b[j - |a| - 1] in b;
        }
      } else if i == |a| {
        assert s[j] == b[j - |a| - 1];
        assert b[j - |a| - 1] in b;
      } else {
        assert s[i] == b[i - |a| - 1] && s[j] == b[j - |a| - 1];
      }
    }
  }

  lemma AscendingSplit(a: seq<int>, k: int, b: seq<int>)
    ensures Ascending(a + [k] + b) <==>
      && Ascending(a)
      && Ascending(b)
      && (forall x :: x in a ==> x < k)
      && (forall y :: y in b ==> k < y)
  {
    if Ascending(a + [k] + b) {
      AscendingParts(a, k, b);
    }
    if && Ascending(a) && Ascending(b)
       && (forall x :: x in a ==> x < k) && (forall y :: y in b ==> k < y)
    {
      AscendingJoin(a, k, b);
    }
  }

  /** Search tree ordering is exactly "the in-order key sequence ascends". */
  lemma {:induction false} BstIffAscending(t: Tree)
    ensures Bst(t) <==> Ascending(InOrder(t))
  {
    if t.Node? {
      BstIffAscending(t.left);
      BstIffAscending(t.right);
      KeysAreInOrder(t.left);
      KeysAreInOrder(t.right);
      AscendingSplit(InOrder(t.left), t.key, InOrder(t.right));
    }
  }

  /** Two trees with the same in-order sequence hold the same keys, have the
      same number of nodes, and are search trees together. */
  lemma SameInOrder(a: Tree, b: Tree)
    requires InOrder(a) == InOrder(b)
    ensures Keys(a) == Keys(b)
    ensures NodeCount(a) == NodeCount(b)
    ensures Bst(a) <==> Bst(b)
  {
    KeysAreInOrder(a);
    KeysAreInOrder(b);
    forall x ensures x in Keys(a) <==> x in Keys(b) {
      assert x in InOrder(a) <==> x in InOrder(b);
    }
    assert Keys(a) == Keys(b);
    BstIffAscending(a);
    BstIffAscending(b);
  }

  /** In a search tree no key is stored twice, so the node count is the
      size of the key set. */
  lemma {:induction false} BstNodeCountIsKeyCount(t: Tree)
    requires Bst(t)
    ensures NodeCount(t) == |Keys(t)|
  {
    if t.Node? {
      BstNodeCountIsKeyCount(t.left);
      BstNodeCountIsKeyCount(t.right);
      forall x | x in Keys(t.left) ensures x !in Keys(t.right) {
        assert x < t.key;
      }
      DisjointUnionSize(Keys(t.left), t.key, Keys(t.right));
    }
  }

  lemma DisjointUnionSize(l: set<int>, k: int, r: set<int>)
    requires l !! r && k !in l && k !in r
    ensures |l + {k} + r| == |l| + 1 + |r|
  {

  }

  /** Two ascending sequences with the same elements are equal: a search
      tree's key set determines its in-order sequence. */
  lemma {:induction false} AscendingUnique(a: seq<int>, b: seq<int>)
    requires Ascending(a) && Ascending(b)
    requires forall x :: x in a <==> x in b
    ensures a == b
    decreases |a|
  {
    assert |a| > 0 ==> a[0] in a && a[0] in b;
    assert |b| > 0 ==> b[0] in b && b[0] in a;
    if |a| > 0 {
      var j :| 0 <= j < |b| && b[j] == a[0];
      assert b[0] <= a[0];
      var i :| 0 <= i < |a| && a[i] == b[0];
      assert a[0] <= b[0];
      forall x ensures x in a[1..] <==> x in b[1..] {
        if x in a[1..] {
          var i :| 1 <= i < |a| && a[i] == x;
          assert a[0] < x;
          assert x in b;
        }
        if x in b[1..] {
          var i :| 1 <= i < |b| && b[i] == x;
          assert b[0] < x;
          assert x in a;
        }
      }
      AscendingUnique(a[1..], b[1..]);
      assert a == [a[0]] + a[1..];
      assert b == [b[0]] + b[1..];
    }
  }
}
