/**
 Small worked cases of the public operations: the first values of the
 minimum-node recurrence, the two rotations that three insertions can
 trigger, an array with a repeated key, and the deletion of a node with
 two children.
 */
module Scenarios {
  import opened AvlNode
  import opened TreeShape
  import opened AvlTrees
  import opened TreeIteration
  import opened MinNodes

  /** The recurrence's first five values. */
  method MinNodesTable() returns (ns: seq<int>)
    ensures ns == [1, 2, 4, 7, 12]
  {
    ns := [];
    var h := 0;
    while h < 5
      invariant 0 <= h <= 5 && |ns| == h
      invariant forall i :: 0 <= i < h ==> ns[i] == MinNodeCount(i)
    {
      var n := FindMinNodes(h);
      ns := ns + [n];
      h := h + 1;
    }
    assert MinNodeCount(4) == 12;
  }

  /** A three-node tree whose root holds `m` and whose two leaves hold
      `lo` and `hi`. */
  function Triangle(lo: int, m: int, hi: int): Tree
  {
    Node(m, 1, Node(lo, 0, Nil, Nil), Node(hi, 0, Nil, Nil))
  }

  /** Root `lo` whose right child `m` has the right child `hi`: the shape
      adding `hi` leaves behind before the walk reaches the root, whose
      cached height is not yet updated. */
  function StraightLine(lo: int, m: int, hi: int): (t: Tree)
    ensures t.Node? && HeightsOk(t.left) && HeightsOk(t.right)
  {
    Node(lo, 1, Nil, Node(m, 1, Nil, Node(hi, 0, Nil, Nil)))
  }

  /** At root `lo` over the straight line `m` / `hi` the walk's step finds
      the right side two levels too tall with only the outer grandchild
      present, so it performs the single left rotation, leaving `m` on top. */
  lemma StraightLineAdjusts(lo: int, m: int, hi: int)
    ensures Rotations.NeedsRotation(StraightLine(lo, m, hi))
    ensures Rotations.ChooseScenario(StraightLine(lo, m, hi)) == Rotations.RightRight
    ensures Rotations.Adjust(StraightLine(lo, m, hi)) == Triangle(lo, m, hi)
  {
  }

  /** Adding `hi` under a root `lo` whose only child is `m` attaches `hi` as
      the outer grandchild, and the walk back up rebalances the root. */
  lemma OuterGrandchildRebalances(lo: int, m: int, hi: int)
    requires lo < m < hi
    ensures Insert(Node(lo, 1, Nil, Node(m, 0, Nil, Nil)), hi) == (Triangle(lo, m, hi), true)
  {
    var leaf := Node(hi, 0, Nil, Nil);
    var child := Node(m, 1, Nil, leaf);
    assert Insert(Node(m, 0, Nil, Nil), hi) == (child, true) by {
      assert Insert(Nil, hi) == (leaf, true);
      assert Rotations.Adjust(Node(m, 0, Nil, leaf)) == child;
    }
    var start := Node(lo, 1, Nil, Node(m, 0, Nil, Nil));
    assert SetRightChild(start, child) == StraightLine(lo, m, hi);
    StraightLineAdjusts(lo, m, hi);
  }

  /** Adding 10, 20 and 30 in order leaves the root's right side two levels
      too tall with only the outer grandchild present: one left rotation
      makes 20 the root. */
  method AscendingBuild() returns (t: AvlTree)
    ensures Valid(t) && t.size == 3
    ensures t.root == Triangle(10, 20, 30)
  {
    var a := Add(Empty(), 10).1;
    assert a.root == Node(10, 0, Nil, Nil);
    var b := Add(a, 20).1;
    assert b.root == Node(10, 1, Nil, Node(20, 0, Nil, Nil));
    OuterGrandchildRebalances(10, 20, 30);
    t := Add(b, 30).1;
  }

  /** After adding 10, 20 and 30 in order, 20 is the root, one edge above
      both 10 and 30. */
  method AscendingThree() returns (t: AvlTree, d10: int, d20: int, d30: int)
    ensures Valid(t) && t.size == 3
    ensures t.root == Triangle(10, 20, 30)
    ensures d10 == 1 && d20 == 0 && d30 == 1
  {
    t := AscendingBuild();
    d10 := Contains(t, 10);
    d20 := Contains(t, 20);
    d30 := Contains(t, 30);
    DepthIsUnique(t.root, 10, d10, 1);
    DepthIsUnique(t.root, 20, d20, 0);
    DepthIsUnique(t.root, 30, d30, 1);
  }

  /** Root `hi` whose left child `lo` has the right child `m`: the shape
      adding `m` leaves behind before the walk reaches the root. */
  function ZigZag(lo: int, m: int, hi: int): (t: Tree)
    ensures t.Node? && HeightsOk(t.left) && HeightsOk(t.right)
  {
    Node(hi, 1, Node(lo, 1, Nil, Node(m, 0, Nil, Nil)), Nil)
  }

  /** At root `hi` over the zig-zag `lo` / `m` the walk's step finds the
      left side two levels too tall with only the inner grandchild present,
      so it performs the left-right double rotation, leaving `m` on top. */
  lemma ZigZagAdjusts(lo: int, m: int, hi: int)
    ensures Rotations.NeedsRotation(ZigZag(lo, m, hi))
    ensures Rotations.ChooseScenario(ZigZag(lo, m, hi)) == Rotations.LeftRight
    ensures Rotations.Adjust(ZigZag(lo, m, hi)) == Triangle(lo, m, hi)
  {

  }

  /** Adding `m` under a root `hi` whose only child is `lo` attaches `m` as
      the inner grandchild, and the walk back up rebalances the root. */
  lemma InnerGrandchildRebalances(lo: int, m: int, hi: int)
    requires lo < m < hi
    ensures Insert(Node(hi, 1, Node(lo, 0, Nil, Nil), Nil), m) == (Triangle(lo, m, hi), true)
  {
    var leaf := Node(m, 0, Nil, Nil);
    var child := Node(lo, 1, Nil, leaf);
    assert Insert(Node(lo, 0, Nil, Nil), m) == (child, true) by {
      assert Insert(Nil, m) == (leaf, true);
      assert Rotations.Adjust(Node(lo, 0, Nil, leaf)) == child;
    }
    var start := Node(hi, 1, Node(lo, 0, Nil, Nil), Nil);
    assert SetLeftChild(start, child) == ZigZag(lo, m, hi);
    ZigZagAdjusts(lo, m, hi);
  }

  /** Adding 30, 10 and 20 in order leaves the root's left side two levels
      too tall with only the inner grandchild present: the left child is
      rotated left, then the root right, and 20 becomes the root. */
  method ZigZagThree() returns (t: AvlTree)
    ensures Valid(t) && t.size == 3
    ensures t.root == Triangle(10, 20, 30)
  {
    var a := Add(Empty(), 30).1;
    assert a.root == Node(30, 0, Nil, Nil);
    var b := Add(a, 10).1;
    assert b.root == Node(30, 1, Node(10, 0, Nil, Nil), Nil);
    InnerGrandchildRebalances(10, 20, 30);
    t := Add(b, 20).1;
  }

  /** A valid tree holding the keys of `expected`, an ascending
      sequence, is iterated as exactly `expected`. */
  method ListKeys(t: AvlTree, expected: seq<int>) returns (keys: seq<int>)
    requires Valid(t) && Ascending(expected)
    requires forall x :: x in Keys(t.root) <==> x in expected
    ensures keys == expected
  {
    keys := Elements(t);
    AscendingUnique(keys, expected);
  }

  /** Which entries of 5, 3, 3, 8 occur for the first time, and which keys
      the sequence holds. */
  lemma FirstOccurrences(data: seq<int>)
    requires data == [5, 3, 3, 8]
    ensures data[0] !in data[..0] && data[1] !in data[..1]
    ensures data[2] in data[..2] && data[3] !in data[..3]
    ensures SeqKeys(data) == {3, 5, 8} && |SeqKeys(data)| == 3
  {

  }

  /** Building from 5, 3, 3, 8 accepts the first 3 and ignores the second. */
  method BuildWithRepeat() returns (t: AvlTree, ghost accepted: seq<bool>)
    ensures Valid(t) && t.size == 3
    ensures Keys(t.root) == {3, 5, 8}
    ensures accepted == [true, true, false, true]
  {
    var data := [5, 3, 3, 8];
    FirstOccurrences(data);
    t, accepted := FromArray(data);
    assert accepted[0] && accepted[1] && !accepted[2] && accepted[3];
  }

  /** The tree built from 5, 3, 3, 8 has three nodes, iterated as 3, 5, 8. */
  method RepeatedKey() returns (size: int, keys: seq<int>)
    ensures size == 3
    ensures keys == [3, 5, 8]
  {
    var t, accepted := BuildWithRepeat();
    size := Size(t);
    keys := ListKeys(t, [3, 5, 8]);
  }

  /** Adds 1, 2, ..., n in ascending order. */
  method AddRange(n: int) returns (t: AvlTree)
    ensures Valid(t) && t.size == if n < 1 then 0 else n
    ensures forall x :: x in Keys(t.root) <==> 1 <= x <= n
  {
    t := Empty();
    var k := 1;
    while k <= n
      invariant 1 <= k && (n >= 1 ==> k <= n + 1) && (n < 1 ==> k == 1)
      invariant Valid(t) && t.size == k - 1
      invariant forall x :: x in Keys(t.root) <==> 1 <= x < k
    {
      t := Add(t, k).1;
      k := k + 1;
    }
  }

  /** Adding 1 to 7 in ascending order and then deleting 4 leaves a valid
      tree of six nodes iterated as 1, 2, 3, 5, 6, 7. */
  method DeleteFromSeven() returns (t: AvlTree, keys: seq<int>)
    ensures Valid(t) && t.size == 6
    ensures keys == [1, 2, 3, 5, 6, 7]
  {
    t := AddRange(7);
    ghost var before := Keys(t.root);
    t := Delete(t, 4).1;
    forall x ensures x in Keys(t.root) <==> x in [1, 2, 3, 5, 6, 7] {
      assert x in before <==> 1 <= x <= 7;
    }
    keys := ListKeys(t, [1, 2, 3, 5, 6, 7]);
  }
}
