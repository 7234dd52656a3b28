/**
 The rotation engine: the two primitive rotations, the choice among the four
 rebalancing scenarios at a node whose children's heights differ by more
 than one, and one step of the bottom-up rebalancing walk (rotate the node
 if it is unbalanced, otherwise recompute its height).
 */
module Rotations {
  import opened AvlNode
  import opened TreeShape

  /** The four rebalancing scenarios, named after the path from the
      unbalanced node to its taller grandchild. RightRight and LeftLeft are
      fixed by one rotation, RightLeft and LeftRight by two. */
  datatype Scenario = RightRight | LeftLeft | RightLeft | LeftRight

  /** Recomputes a node's cached height from its children's cached heights. */
  function UpdateHeight(n: Tree): (r: Tree)
    requires n.Node?
    ensures r.Node? && r.key == n.key && r.left == n.left && r.right == n.right
    ensures HeightsOk(n.left) && HeightsOk(n.right) ==> HeightsOk(r)
  {
    SetHeight(n, Max(Height(n.left), Height(n.right)) + 1)
  }

  /** Promotes the right child to the top of the subtree; the node becomes
      its left child and takes over its former left child as right child.
      The demoted node's height is recomputed first, then the promoted one's. */
  function RotateLeft(n: Tree): (r: Tree)
    requires n.Node? && n.right.Node?
    ensures r.Node? && r.key == n.right.key && r.right == n.right.right
    ensures r.left.Node? && r.left.key == n.key
    ensures r.left.left == n.left && r.left.right == n.right.left
    ensures InOrder(r) == InOrder(n)
    ensures HeightsOk(n.left) && HeightsOk(n.right) ==> HeightsOk(r)
  {
    var promoted := n.right;
    var demoted := UpdateHeight(SetRightChild(n, promoted.left));
    UpdateHeight(SetLeftChild(promoted, demoted))
  }

  /** The mirror image of RotateLeft: the left child is promoted. */
  function RotateRight(n: Tree): (r: Tree)
    requires n.Node? && n.left.Node?
    ensures r.Node? && r.key == n.left.key && r.left == n.left.left
    ensures r.right.Node? && r.right.key == n.key
    ensures r.right.right == n.right && r.right.left == n.left.right
    ensures InOrder(r) == InOrder(n)
    ensures HeightsOk(n.left) && HeightsOk(n.right) ==> HeightsOk(r)
  {
    var promoted := n.left;
    var demoted := UpdateHeight(SetLeftChild(n, promoted.right));
    UpdateHeight(SetRightChild(promoted, demoted))
  }

  /** The children's cached heights differ by more than one. */
  predicate NeedsRotation(n: Tree)
    requires n.Node?
  {
    Abs(Height(n.right) - Height(n.left)) > MaxDifference
  }

  /** The child, and for a double rotation the grandchild, that a scenario
      rotates around is present. */
  predicate CanRotate(n: Tree, s: Scenario)
    requires n.Node?
  {
    match s
    case RightRight => n.right.Node?
    case LeftLeft => n.left.Node?
    case RightLeft => n.right.Node? && n.right.left.Node?
    case LeftRight => n.left.Node? && n.left.right.Node?
  }

  /** A child more than one level taller than its sibling has a child of its
      own, so the "no grandchild on the taller side" error cannot arise. */
  lemma TallerChildHasChild(c: Tree, other: Tree)
    requires HeightsOk(c) && HeightsOk(other)
    requires Height(c) > Height(other) + MaxDifference
    ensures c.Node? && (c.left.Node? || c.right.Node?)
  {

  }

  /** The scenario chosen at an unbalanced node. On the taller side: when only
      one grandchild exists, the outer one selects a single rotation and the
      inner one a double rotation; when both exist, a strictly taller inner
      grandchild selects the double rotation, otherwise (ties included) the
      single rotation is chosen. */
  function ChooseScenario(n: Tree): (s: Scenario)
    requires n.Node? && HeightsOk(n.left) && HeightsOk(n.right) && NeedsRotation(n)
    ensures CanRotate(n, s)
    ensures (s == RightRight || s == RightLeft) <==> Height(n.right) > Height(n.left)
    ensures Height(n.right) > Height(n.left) ==>
      if n.right.left.Nil? then s == RightRight
      else if n.right.right.Nil? then s == RightLeft
      else (s == RightLeft <==> n.right.left.height > n.right.right.height)
    ensures Height(n.left) > Height(n.right) ==>
      if n.left.right.Nil? then s == LeftLeft
      else if n.left.left.Nil? then s == LeftRight
      else (s == LeftRight <==> n.left.right.height > n.left.left.height)
  {
    if Height(n.right) > Height(n.left) then
      TallerChildHasChild(n.right, n.left);
      var c := n.right;
      if c.left.Node? != c.right.Node? then
        if c.left.Node? then RightLeft else RightRight
      else if c.left.height > c.right.height then RightLeft else RightRight
    else
      TallerChildHasChild(n.left, n.right);
      var c := n.left;
      if c.left.Node? != c.right.Node? then
        if c.right.Node? then LeftRight else LeftLeft
      else if c.right.height > c.left.height then LeftRight else LeftLeft
  }

  /** With correct heights the decision table collapses to one comparison:
      a double rotation exactly when the inner grandchild is strictly taller
      than the outer one, an absent grandchild counting as -1. */
  lemma ScenarioFollowsGrandchildHeights(n: Tree)
    requires n.Node? && HeightsOk(n.left) && HeightsOk(n.right) && NeedsRotation(n)
    ensures n.right.Node? && Height(n.right) > Height(n.left) ==>
      (ChooseScenario(n) == RightLeft <==> Height(n.right.left) > Height(n.right.right))
    ensures n.left.Node? && Height(n.left) > Height(n.right) ==>
      (ChooseScenario(n) == LeftRight <==> Height(n.left.right) > Height(n.left.left))
  {
    if n.right.Node? {
      HeightLowerBound(n.right.left);
      HeightLowerBound(n.right.right);
    }
    if n.left.Node? {
      HeightLowerBound(n.left.left);
      HeightLowerBound(n.left.right);
    }
  }

  /** Applies a scenario: one rotation for RightRight and LeftLeft; for
      RightLeft the right child is first rotated right, then the node left
      (LeftRight mirrors it). */
  function RotateByScenario(n: Tree, s: Scenario): (r: Tree)
    requires n.Node? && CanRotate(n, s)
    ensures r.Node?
    ensures InOrder(r) == InOrder(n)
    ensures HeightsOk(n.left) && HeightsOk(n.right) ==> HeightsOk(r)
  {
    match s
    case RightRight => RotateLeft(n)
    case LeftLeft => RotateRight(n)
    case RightLeft => RotateLeft(SetRightChild(n, RotateRight(n.right)))
    case LeftRight => RotateRight(SetLeftChild(n, RotateLeft(n.left)))
  }

  /** Returns the node itself when it is balanced, otherwise the root of the
      subtree after the chosen scenario's rotations. */
  function RotateNode(n: Tree): (r: Tree)
    requires n.Node? && HeightsOk(n.left) && HeightsOk(n.right)
    ensures !NeedsRotation(n) ==> r == n
    ensures r.Node? && InOrder(r) == InOrder(n)
    ensures NeedsRotation(n) ==> HeightsOk(r)
  {
    if NeedsRotation(n) then RotateByScenario(n, ChooseScenario(n)) else n
  }

  /** One step of the bottom-up rebalancing walk at a node whose children are
      already settled: rotate it, and when no rotation took place recompute
      its height. The cached height of `n` itself may be stale. */
  function Adjust(n: Tree): (r: Tree)
    requires n.Node? && HeightsOk(n.left) && HeightsOk(n.right)
    ensures r.Node? && HeightsOk(r)
    ensures InOrder(r) == InOrder(n)
    ensures Keys(r) == Keys(n) && NodeCount(r) == NodeCount(n)
    ensures Bst(r) <==> Bst(n)
  {
    var sub := RotateNode(n);
    var r := if sub == n then UpdateHeight(n) else sub;
    SameInOrder(r, n);
    r
  }

  /** The single left rotation repairs a right side two levels too tall
      whose outer grandchild is at least as tall as the inner one. */
  lemma RotateLeftRebalances(n: Tree)
    requires n.Node? && n.right.Node?
    requires AvlShape(n.left) && AvlShape(n.right)
    requires Height(n.right) == Height(n.left) + 2
    requires Height(n.right.right) >= Height(n.right.left)
    ensures AvlShape(RotateLeft(n))
    ensures Height(n.right) <= Height(RotateLeft(n)) <= Height(n.right) + 1
  {

  }

  /** The mirror image of RotateLeftRebalances. */
  lemma RotateRightRebalances(n: Tree)
    requires n.Node? && n.left.Node?
    requires AvlShape(n.left) && AvlShape(n.right)
    requires Height(n.left) == Height(n.right) + 2
    requires Height(n.left.left) >= Height(n.left.right)
    ensures AvlShape(RotateRight(n))
    ensures Height(n.left) <= Height(RotateRight(n)) <= Height(n.left) + 1
  {

  }

  /** The right-then-left double rotation repairs a right side two levels
      too tall whose inner grandchild is strictly taller than the outer one,
      and the subtree ends up exactly as tall as that right child was. */
  lemma RotateRightLeftRebalances(n: Tree)
    requires n.Node? && n.right.Node? && n.right.left.Node?
    requires AvlShape(n.left) && AvlShape(n.right)
    requires Height(n.right) == Height(n.left) + 2
    requires Height(n.right.left) > Height(n.right.right)
    ensures AvlShape(RotateByScenario(n, RightLeft))
    ensures Height(RotateByScenario(n, RightLeft)) == Height(n.right)
  {
    var a, c := n.left, n.right;
    var g, d := c.left, c.right;
    var b1, b2 := g.left, g.right;
    var inner := RotateRight(c);
    assert inner.right == Node(c.key, 1 + Max(Height(b2), Height(d)), b2, d);
    assert inner.left == b1;
    assert Height(g) == Height(a) + 1 && Height(d) == Height(a);
    assert HeightsOk(g) && Balanced(g) && HeightsOk(b1) && HeightsOk(b2);
    assert Height(g) == 1 + Max(Height(b1), Height(b2));
    assert Abs(Height(b1) - Height(b2)) <= MaxDifference;
    assert Height(a) - 1 <= Height(b1) <= Height(a) && Height(a) - 1 <= Height(b2) <= Height(a);
    assert Balanced(inner.right) && Height(inner.right) == Height(a) + 1;
    var r := RotateLeft(SetRightChild(n, inner));
    assert r == RotateByScenario(n, RightLeft);
    assert r.left == Node(n.key, 1 + Max(Height(a), Height(b1)), a, b1);
    assert Balanced(r.left) && Height(r.left) == Height(a) + 1;
    assert r.right == inner.right;
  }

  /** The mirror image of RotateRightLeftRebalances. */
  lemma RotateLeftRightRebalances(n: Tree)
    requires n.Node? && n.left.Node? && n.left.right.Node?
    requires AvlShape(n.left) && AvlShape(n.right)
    requires Height(n.left) == Height(n.right) + 2
    requires Height(n.left.right) > Height(n.left.left)
    ensures AvlShape(RotateByScenario(n, LeftRight))
    ensures Height(RotateByScenario(n, LeftRight)) == Height(n.left)
  {
    var a, c := n.right, n.left;
    var g, d := c.right, c.left;
    var b1, b2 := g.right, g.left;
    var inner := RotateLeft(c);
    assert inner.left == Node(c.key, 1 + Max(Height(d), Height(b2)), d, b2);
    assert inner.right == b1;
    assert Height(g) == Height(a) + 1 && Height(d) == Height(a);
    assert HeightsOk(g) && Balanced(g) && HeightsOk(b1) && HeightsOk(b2);
    assert Height(g) == 1 + Max(Height(b1), Height(b2));
    assert Abs(Height(b1) - Height(b2)) <= MaxDifference;
    assert Height(a) - 1 <= Height(b1) <= Height(a) && Height(a) - 1 <= Height(b2) <= Height(a);
    assert Balanced(inner.left) && Height(inner.left) == Height(a) + 1;
    var r := RotateRight(SetLeftChild(n, inner));
    assert r == RotateByScenario(n, LeftRight);
    assert r.right == Node(n.key, 1 + Max(Height(b1), Height(a)), b1, a);
    assert Balanced(r.right) && Height(r.right) == Height(a) + 1;
    assert r.left == inner.left;
  }

  /** One step of the walk restores the AVL shape at a node whose children
      are AVL-shaped and differ in height by at most two. Without a rotation
      the node's height becomes one more than its taller child's; with one,
      the subtree is as tall as the taller child or one level taller. */
  lemma AdjustRestoresBalance(n: Tree)
    requires n.Node? && AvlShape(n.left) && AvlShape(n.right)
    requires Abs(Height(n.left) - Height(n.right)) <= 2
    ensures AvlShape(Adjust(n))
    ensures !NeedsRotation(n) ==> Height(Adjust(n)) == 1 + Max(Height(n.left), Height(n.right))
    ensures NeedsRotation(n) ==>
      Max(Height(n.left), Height(n.right)) <= Height(Adjust(n)) <= Max(Height(n.left), Height(n.right)) + 1
  {
    if NeedsRotation(n) {
      var s := ChooseScenario(n);
      ScenarioFollowsGrandchildHeights(n);
      match s
      case RightRight => RotateLeftRebalances(n);
      case LeftLeft => RotateRightRebalances(n);
      case RightLeft => RotateRightLeftRebalances(n);
      case LeftRight => RotateLeftRightRebalances(n);
      var sub := RotateNode(n);
      assert Balanced(sub);
      assert sub != n;
    }
  }
}
