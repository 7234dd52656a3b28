/**
 The node record of the AVL tree: a key, the cached height of the node's
 subtree and two child slots. A node has no parent link: wherever a walk
 upward from a node is needed, recursion over the tree takes its place.
 */
module AvlNode {

  /** The height a freshly created node gets: it has no children yet. */
  const StartingHeight: int := 0

  /** The height an absent subtree counts as. */
  const NullHeight: int := -1

  /** An empty child slot (`Nil`, a null reference) or a node holding its key,
      its cached height and its two children. */
  datatype Tree = Nil | Node(key: int, height: int, left: Tree, right: Tree)

  /** A new node holding `key`: height 0, both child slots empty. */
  function NewNode(key: int): (n: Tree)
    ensures n.Node? && n.key == key && n.height == StartingHeight
    ensures n.left == Nil && n.right == Nil
  {
    Node(key, StartingHeight, Nil, Nil)
  }

  /** The cached height of a subtree; an absent subtree counts as -1. */
  function Height(t: Tree): (h: int)
    ensures t.Nil? ==> h == NullHeight
    ensures t.Node? ==> h == t.height
  {
    if t.Nil? then NullHeight else t.height
  }

  /** Overwrites the key; the height and both child slots are kept. */
  function SetKey(n: Tree, newKey: int): (r: Tree)
    requires n.Node?
    ensures r.Node? && r.key == newKey
    ensures r.height == n.height && r.left == n.left && r.right == n.right
  {
    n.(key := newKey)
  }

  /** Overwrites the cached height; reading it back gives `newHeight`, and
      the key and both child slots are kept. */
  function SetHeight(n: Tree, newHeight: int): (r: Tree)
    requires n.Node?
    ensures r.Node? && Height(r) == newHeight
    ensures r.key == n.key && r.left == n.left && r.right == n.right
  {
    n.(height := newHeight)
  }

  /** Puts `child` in the left slot; nothing else about the node changes. */
  function SetLeftChild(n: Tree, child: Tree): (r: Tree)
    requires n.Node?
    ensures r.Node? && r.left == child
    ensures r.key == n.key && r.height == n.height && r.right == n.right
  {
    n.(left := child)
  }

  /** Puts `child` in the right slot; nothing else about the node changes. */
  function SetRightChild(n: Tree, child: Tree): (r: Tree)
    requires n.Node?
    ensures r.Node? && r.right == child
    ensures r.key == n.key && r.height == n.height && r.left == n.left
  {
    n.(right := child)
  }

  /** Empties the left slot only. */
  function RemoveLeftChild(n: Tree): (r: Tree)
    requires n.Node?
    ensures r.Node? && r.left == Nil
    ensures r.key == n.key && r.height == n.height && r.right == n.right
  {
    n.(left := Nil)
  }

  /** Empties the right slot only. */
  function RemoveRightChild(n: Tree): (r: Tree)
    requires n.Node?
    ensures r.Node? && r.right == Nil
    ensures r.key == n.key && r.height == n.height && r.left == n.left
  {
    n.(right := Nil)
  }
}
