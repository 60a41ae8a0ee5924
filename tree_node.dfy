/** Nodes of the binary search tree. A node holds a datum and two optional
    children; an absent child (Ruby's nil) is `Nil`. Nodes are created with
    their children and never changed afterwards, so they are values. */
module TreeNode {

  datatype Tree<T> = Nil | Node(data: T, left: Tree<T>, right: Tree<T>)

  /** `BinaryTreeNode.new`: data defaults to 0 and both children to nil. */
  function NewNode(data: int := 0, leftChild: Tree<int> := Nil, rightChild: Tree<int> := Nil): (n: Tree<int>)
    ensures n.Node? && n.data == data && n.left == leftChild && n.right == rightChild
  {
    Node(data, leftChild, rightChild)
  }

  /** The node `BinaryTreeNode.new` builds with no arguments. */
  lemma NewNodeDefaults()
    ensures NewNode() == Node(0, Nil, Nil)
    ensures !HasChildren(NewNode())
  {
  }

  /** `has_left?`: true exactly when the left child is present. */
  predicate HasLeft<T>(n: Tree<T>): (b: bool)
    requires n.Node?
    ensures b <==> n.left.Node?
  {
    !n.left.Nil?
  }

  /** `has_right?`: true exactly when the right child is present. */
  predicate HasRight<T>(n: Tree<T>): (b: bool)
    requires n.Node?
    ensures b <==> n.right.Node?
  {
    !n.right.Nil?
  }

  /** `has_children?`: false exactly when both children are nil. */
  predicate HasChildren<T>(n: Tree<T>): (b: bool)
    requires n.Node?
    ensures b <==> n.left.Node? || n.right.Node?
    ensures !b <==> n.left == Nil && n.right == Nil
  {
    !(n.left.Nil? && n.right.Nil?)
  }

  /** A node has children exactly when it has a left or a right child. */
  lemma HasChildrenIsEither<T>(n: Tree<T>)
    requires n.Node?
    ensures HasChildren(n) <==> HasLeft(n) || HasRight(n)
    ensures !HasLeft(n) <==> n.left == Nil
    ensures !HasRight(n) <==> n.right == Nil
  {
  }

  /** `<=>`: nodes compare as their data do, giving -1, 0 or 1. */
  function Compare(n: Tree<int>, other: Tree<int>): (c: int)
    requires n.Node? && other.Node?
    ensures c in {-1, 0, 1}
    ensures c < 0 <==> n.data < other.data
    ensures c == 0 <==> n.data == other.data
    ensures c > 0 <==> n.data > other.data
  {
    if n.data < other.data then -1 else if n.data == other.data then 0 else 1
  }

  /** The comparison is antisymmetric, as the data's order is. */
  lemma CompareAntisymmetric(n: Tree<int>, other: Tree<int>)
    requires n.Node? && other.Node?
    ensures Compare(n, other) == -Compare(other, n)
  {
  }
}
