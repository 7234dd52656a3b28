/**
 The minimum number of nodes an AVL tree of a given height can have, by the
 recurrence N(0) = 1, N(1) = 2, N(h) = N(h-1) + N(h-2) + 1, computed
 iteratively; and the two facts that make it the minimum: every AVL-shaped
 tree of height h has at least N(h) nodes, and one with exactly N(h) exists.
 */
module MinNodes {
  import opened AvlNode
  import opened TreeShape

  /** What the computation returns when its loop never runs (a negative height). */
  const NullMarker: int := -1

  /** The recurrence itself. */
  ghost function MinNodeCount(h: nat): nat
  {
    if h == 0 then 1
    else if h == 1 then 2
    else MinNodeCount(h - 1) + MinNodeCount(h - 2) + 1
  }

  /** Computes N(h) bottom-up, keeping the last two values. For a negative
      height the loop does not run and the error marker -1 comes back. */
  method FindMinNodes(h: int) returns (nh: int)
    ensures h < 0 ==> nh == NullMarker
    ensures h >= 0 ==> nh == MinNodeCount(h)
  {
    var nhMinusTwo := 1;
    var nhMinusOne := 2;
    nh := NullMarker;
    if h == 0 {
      return 1;
    } else if h == 1 {
      return 2;
    }
    var i := 0;
    while i <= h - 2
      invariant 0 <= i
      invariant h < 2 ==> i == 0
      invariant h >= 2 ==> i <= h - 1
      invariant nhMinusTwo == MinNodeCount(i) && nhMinusOne == MinNodeCount(i + 1)
      invariant i == 0 ==> nh == NullMarker
      invariant i > 0 ==> nh == nhMinusOne
    {
      nh := nhMinusOne + nhMinusTwo + 1;
      var temp := nhMinusOne;
      nhMinusOne := nh;
      nhMinusTwo := temp;
      i := i + 1;
    }
  }

  lemma {:induction false} MinNodeCountGrows(a: nat, b: nat)
    requires a <= b
    ensures MinNodeCount(a) <= MinNodeCount(b)
    decreases b
  {
    if a < b {
      MinNodeCountGrows(a, b - 1);
    }
  }

  /** Every AVL-shaped tree of height h has at least N(h) nodes. */
  lemma {:induction false} AvlHasAtLeastMinNodes(t: Tree)
    requires t.Node? && AvlShape(t)
    ensures Height(t) >= 0 && NodeCount(t) >= MinNodeCount(Height(t))
  {
    HeightLowerBound(t);
    HeightLowerBound(t.left);
    HeightLowerBound(t.right);
    var h := Height(t);
    if h >= 2 {
      var hl, hr := Height(t.left), Height(t.right);
      AvlHasAtLeastMinNodes(t.left);
      AvlHasAtLeastMinNodes(t.right);
      if hl >= hr {
        MinNodeCountGrows(h - 2, hr);
      } else {
        MinNodeCountGrows(h - 2, hl);
      }
    }
  }

  /** The sparsest AVL tree of height h, holding the keys lo, lo + 1, ...:
      a left subtree of height h - 1 and a right one of height h - 2, each
      itself sparsest. */
  ghost function Sparsest(h: nat, lo: int): Tree
  {
    if h == 0 then Node(lo, 0, Nil, Nil)
    else if h == 1 then Node(lo + 1, 1, Node(lo, 0, Nil, Nil), Nil)
    else
      var k := lo + MinNodeCount(h - 1);
      Node(k, h, Sparsest(h - 1, lo), Sparsest(h - 2, k + 1))
  }

  /** The bound is attained: for every height there is an AVL tree of that
      height with exactly N(h) nodes. */
  lemma {:induction false} SparsestIsMinimal(h: nat, lo: int)
    ensures Avl(Sparsest(h, lo))
    ensures Height(Sparsest(h, lo)) == h
    ensures NodeCount(Sparsest(h, lo)) == MinNodeCount(h)
    ensures forall x :: x in Keys(Sparsest(h, lo)) ==> lo <= x < lo + MinNodeCount(h)
  {
    if h >= 2 {
      var k := lo + MinNodeCount(h - 1);
      SparsestIsMinimal(h - 1, lo);
      SparsestIsMinimal(h - 2, k + 1);
      var t := Sparsest(h, lo);
      assert t == Node(k, h, Sparsest(h - 1, lo), Sparsest(h - 2, k + 1));
      assert Bst(t);
    }
  }
}
