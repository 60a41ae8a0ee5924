/** `BinarySearchTree`: building a balanced tree from an array by repeated
    midpoint selection over inclusive index bounds, and the constructor
    that starts it. */
module BinaryTree {
  import opened TreeNode

  datatype Option<T> = None | Some(value: T)

  /** Keys of a tree, left subtree first, then the node, then the right. */
  function Inorder<T>(t: Tree<T>): seq<T>
  {
    match t
    case Nil => []
    case Node(d, l, r) => Inorder(l) + [d] + Inorder(r)
  }

  function Size<T>(t: Tree<T>): nat
  {
    match t
    case Nil => 0
    case Node(_, l, r) => Size(l) + Size(r) + 1
  }

  /** Edges on the longest path down from the root; -1 for the empty tree. */
  function Height<T>(t: Tree<T>): int
  {
    match t
    case Nil => -1
    case Node(_, l, r) => 1 + (if Height(l) < Height(r) then Height(r) else Height(l))
  }

  /** floor(log2 n) for n >= 1, and -1 for n == 0. */
  function Log(n: nat): int
  {
    if n == 0 then -1 else 1 + Log(n / 2)
  }

  ghost predicate StrictlyAscending(s: seq<int>)
  {
    forall i, j :: 0 <= i < j < |s| ==> s[i] < s[j]
  }

  /** Binary-search-tree order: left keys < node < right keys, everywhere. */
  ghost predicate IsBst(t: Tree<int>)
  {
    match t
    case Nil => true
    case Node(d, l, r) =>
      IsBst(l) && IsBst(r) &&
      (forall x :: x in Inorder(l) ==> x < d) &&
      (forall x :: x in Inorder(r) ==> d < x)
  }

  /** At every node the right subtree has as many nodes as the left, or one more. */
  ghost predicate SizeBalanced<T>(t: Tree<T>)
  {
    match t
    case Nil => true
    case Node(_, l, r) =>
      SizeBalanced(l) && SizeBalanced(r) && Size(l) <= Size(r) <= Size(l) + 1
  }

  /** At every node the two subtrees' heights differ by at most one. */
  ghost predicate HeightBalanced<T>(t: Tree<T>)
  {
    match t
    case Nil => true
    case Node(_, l, r) =>
      HeightBalanced(l) && HeightBalanced(r) && -1 <= Height(l) - Height(r) <= 1
  }

  /** `build_tree`: empty when the bounds have crossed; otherwise a node for
      the floor midpoint of [lo, hi], whose children are the trees of
      [lo, mid-1] and [mid+1, hi]. One node per index of the range, and at
      every node the right subtree is the larger by at most one. */
  function BuildTree<T>(a: seq<T>, lo: int, hi: int): (t: Tree<T>)
    requires lo > hi || (0 <= lo && hi < |a|)
    ensures lo > hi ==> t == Nil
    ensures lo <= hi ==> t.Node?
    ensures Size(t) == if lo > hi then 0 else hi - lo + 1
    decreases hi - lo + 1
  {
    if lo > hi then Nil
    else
      var mid := (lo + hi) / 2;
      Node(a[mid], BuildTree(a, lo, mid - 1), BuildTree(a, mid + 1, hi))
  }

  lemma SliceAround<T>(a: seq<T>, i: int, j: int, k: int)
    requires 0 <= i <= j < k <= |a|
    ensures a[i..k] == a[i..j] + [a[j]] + a[j + 1..k]
  {
    var whole, left, right := a[i..k], a[i..j], a[j + 1..k];
    assert forall n :: 0 <= n < |left| ==> whole[n] == left[n];
    assert forall n :: 0 <= n < |right| ==> whole[|left| + 1 + n] == right[n];
  }

  /** The tree built over [lo, hi] holds a[lo..hi] in inorder. */
  lemma {:induction false} BuildTreeInorder<T>(a: seq<T>, lo: int, hi: int)
    requires 0 <= lo <= hi + 1 <= |a|
    ensures Inorder(BuildTree(a, lo, hi)) == a[lo..hi + 1]
    decreases hi - lo + 1
  {
    if lo <= hi {
      var mid := (lo + hi) / 2;
      var t := BuildTree(a, lo, hi);
      BuildTreeInorder(a, lo, mid - 1);
      BuildTreeInorder(a, mid + 1, hi);
      assert Inorder(t) == Inorder(BuildTree(a, lo, mid - 1)) + [a[mid]] + Inorder(BuildTree(a, mid + 1, hi));
      SliceAround(a, lo, mid, hi + 1);
    } else {
      assert a[lo..hi + 1] == [];
    }
  }

  /** At every node of a built tree the right subtree has as many nodes as
      the left or one more. */
  lemma {:induction false} BuildTreeSizeBalanced<T>(a: seq<T>, lo: int, hi: int)
    requires lo > hi || (0 <= lo && hi < |a|)
    ensures SizeBalanced(BuildTree(a, lo, hi))
    decreases hi - lo + 1
  {
    if lo <= hi {
      var mid := (lo + hi) / 2;
      BuildTreeSizeBalanced(a, lo, mid - 1);
      BuildTreeSizeBalanced(a, mid + 1, hi);
    }
  }

  /** For a non-empty range the root holds the floor midpoint a[(lo+hi)/2],
      its left subtree the elements before it and its right subtree those
      after it. */
  lemma BuildTreeRoot<T>(a: seq<T>, lo: int, hi: int)
    requires 0 <= lo <= hi < |a|
    ensures BuildTree(a, lo, hi).data == a[(lo + hi) / 2]
    ensures Inorder(BuildTree(a, lo, hi).left) == a[lo..(lo + hi) / 2]
    ensures Inorder(BuildTree(a, lo, hi).right) == a[(lo + hi) / 2 + 1..hi + 1]
  {
    var mid := (lo + hi) / 2;
    BuildTreeInorder(a, lo, mid - 1);
    BuildTreeInorder(a, mid + 1, hi);
  }

  lemma {:induction false} LogMonotone(m: nat, n: nat)
    requires m <= n
    ensures Log(m) <= Log(n)
  {
    if m > 0 {
      LogMonotone(m / 2, n / 2);
    } else if n > 0 {
      LogMonotone(0, n / 2);
    }
  }

  lemma {:induction false} LogStep(m: nat)
    ensures Log(m + 1) <= Log(m) + 1
  {
    if m > 0 && (m + 1) / 2 != m / 2 {
      LogStep(m / 2);
    }
  }

  /** A size-balanced tree of n nodes has height floor(log2 n) and is height
      balanced. */
  lemma {:induction false} SizeBalancedHeight<T>(t: Tree<T>)
    requires SizeBalanced(t)
    ensures Height(t) == Log(Size(t))
    ensures HeightBalanced(t)
  {
    match t
    case Nil =>
    case Node(_, l, r) =>
      SizeBalancedHeight(l);
      SizeBalancedHeight(r);
      BalancedLog(Size(l), Size(r));
  }

  /** With sl <= sr <= sl + 1, a node over subtrees of sl and sr nodes has
      floor(log2) one more than the larger subtree, whose floor(log2) is at
      most one more than the smaller's. */
  lemma BalancedLog(sl: nat, sr: nat)
    requires sl <= sr <= sl + 1
    ensures Log(sl) <= Log(sr) <= Log(sl) + 1
    ensures Log(sl + sr + 1) == 1 + Log(sr)
  {
    LogMonotone(sl, sr);
    LogStep(sl);
    assert (sl + sr + 1) / 2 == sr;
  }

  /** No tree of n nodes has height below floor(log2 n). */
  lemma {:induction false} MinimumHeight<T>(t: Tree<T>)
    ensures Log(Size(t)) <= Height(t)
  {
    if t.Node? {
      MinimumHeight(t.left);
      MinimumHeight(t.right);
      var big := if Size(t.left) < Size(t.right) then Size(t.right) else Size(t.left);
      LogMonotone(Size(t) / 2, big);
      LogMonotone(Size(t.left), big);
      LogMonotone(Size(t.right), big);
    }
  }

  /** `build_tree` gives a tree of minimum height, and a height-balanced one. */
  lemma BuildTreeMinimumHeight<T>(a: seq<T>, lo: int, hi: int, other: Tree<T>)
    requires lo > hi || (0 <= lo && hi < |a|)
    requires Size(other) == Size(BuildTree(a, lo, hi))
    ensures HeightBalanced(BuildTree(a, lo, hi))
    ensures Height(BuildTree(a, lo, hi)) == Log(Size(BuildTree(a, lo, hi)))
    ensures Height(BuildTree(a, lo, hi)) <= Height(other)
  {
    BuildTreeSizeBalanced(a, lo, hi);
    SizeBalancedHeight(BuildTree(a, lo, hi));
    MinimumHeight(other);
  }

  /** Cutting a strictly ascending sequence around one element leaves two
      strictly ascending parts, below and above that element. */
  lemma AscendingAround(left: seq<int>, d: int, right: seq<int>)
    requires StrictlyAscending(left + [d] + right)
    ensures StrictlyAscending(left) && StrictlyAscending(right)
    ensures forall x :: x in left ==> x < d
    ensures forall x :: x in right ==> d < x
  {
    var s := left + [d] + right;
    assert forall i :: 0 <= i < |left| ==> s[i] == left[i];
    assert forall i :: 0 <= i < |right| ==> s[|left| + 1 + i] == right[i];
    assert s[|left|] == d;
    forall x | x in left
      ensures x < d
    {
      var i :| 0 <= i < |left| && left[i] == x;
      assert s[i] < s[|left|];
    }
    forall x | x in right
      ensures d < x
    {
      var i :| 0 <= i < |right| && right[i] == x;
      assert s[|left|] < s[|left| + 1 + i];
    }
    forall i, j | 0 <= i < j < |right|
      ensures right[i] < right[j]
    {
      assert s[|left| + 1 + i] < s[|left| + 1 + j];
    }
  }

  /** A tree whose inorder sequence is strictly ascending is a binary
      search tree. */
  lemma {:induction false} AscendingInorderIsBst(t: Tree<int>)
    requires StrictlyAscending(Inorder(t))
    ensures IsBst(t)
  {
    if t.Node? {
      AscendingAround(Inorder(t.left), t.data, Inorder(t.right));
      AscendingInorderIsBst(t.left);
      AscendingInorderIsBst(t.right);
    }
  }

  /** Two strictly ascending parts, all below and all above an element,
      join around it into a strictly ascending sequence. */
  lemma AscendingJoin(left: seq<int>, d: int, right: seq<int>)
    requires StrictlyAscending(left) && StrictlyAscending(right)
    requires forall x :: x in left ==> x < d
    requires forall x :: x in right ==> d < x
    ensures StrictlyAscending(left + [d] + right)
  {
    var s := left + [d] + right;
    forall i, j | 0 <= i < j < |s|
      ensures s[i] < s[j]
    {
      if j < |left| {
        assert s[i] == left[i] && s[j] == left[j];
      } else if i > |left| {
        assert s[i] == right[i - |left| - 1] && s[j] == right[j - |left| - 1];
      } else if i < |left| {
        assert s[i] == left[i] && s[i] in left;
        if j > |left| {
          assert s[j] == right[j - |left| - 1] && s[j] in right;
        }
      } else {
        assert s[j] == right[j - |left| - 1] && s[j] in right;
      }
    }
  }

  /** The inorder sequence of a binary search tree is strictly ascending. */
  lemma {:induction false} BstInorderAscending(t: Tree<int>)
    requires IsBst(t)
    ensures StrictlyAscending(Inorder(t))
  {
    if t.Node? {
      BstInorderAscending(t.left);
      BstInorderAscending(t.right);
      AscendingJoin(Inorder(t.left), t.data, Inorder(t.right));
    }
  }

  /** The tree built over [lo, hi] is a binary search tree exactly when the
      range is strictly ascending; with a repeated element it is not one. */
  lemma BuildTreeIsBst(a: seq<int>, lo: int, hi: int)
    requires 0 <= lo <= hi + 1 <= |a|
    ensures IsBst(BuildTree(a, lo, hi)) <==> forall i, j :: lo <= i < j <= hi ==> a[i] < a[j]
  {
    BuildTreeInorder(a, lo, hi);
    var s := a[lo..hi + 1];
    assert forall i :: 0 <= i < |s| ==> s[i] == a[lo + i];
    if forall i, j :: lo <= i < j <= hi ==> a[i] < a[j] {
      AscendingInorderIsBst(BuildTree(a, lo, hi));
    }
    if IsBst(BuildTree(a, lo, hi)) {
      BstInorderAscending(BuildTree(a, lo, hi));
      forall i, j | lo <= i < j <= hi
        ensures a[i] < a[j]
      {
        assert s[i - lo] < s[j - lo];
      }
    }
  }

  /** A sequence with one `nil` read past its end, as Ruby's array index
      yields `nil` for the position just beyond the last element. */
  function WithNilPastEnd<T>(s: seq<T>): (p: seq<Option<T>>)
    ensures |p| == |s| + 1 && p[|s|] == None
    ensures forall i :: 0 <= i < |s| ==> p[i] == Some(s[i])
  {
    seq(|s|, i requires 0 <= i < |s| => Some(s[i])) + [None]
  }

  /** `initialize` as written: an empty array leaves the root nil; otherwise
      the array is sorted by `tree_merge_sort` (not part of this model, so it
      is a parameter) and built with the array length as the inclusive end
      index, which reads one element past the end. */
  function InitializeAsWritten<T>(treeArray: seq<T>, treeMergeSort: seq<T> -> seq<T>): (root: Tree<Option<T>>)
    ensures treeArray == [] ==> root == Nil
  {
    if treeArray == [] then Nil
    else
      var sorted := treeMergeSort(treeArray);
      BuildTree(WithNilPastEnd(sorted), 0, |sorted|)
  }

  /** As written, a non-empty array gives a tree with one extra node whose
      datum is nil, placed after every real element in order. */
  lemma InitializeAsWrittenExtraNil<T>(treeArray: seq<T>, treeMergeSort: seq<T> -> seq<T>)
    requires treeArray != []
    ensures Size(InitializeAsWritten(treeArray, treeMergeSort)) == |treeMergeSort(treeArray)| + 1
    ensures Inorder(InitializeAsWritten(treeArray, treeMergeSort)) == WithNilPastEnd(treeMergeSort(treeArray))
    ensures None in Inorder(InitializeAsWritten(treeArray, treeMergeSort))
  {
    var sorted := treeMergeSort(treeArray);
    var p := WithNilPastEnd(sorted);
    BuildTreeInorder(p, 0, |sorted|);
    assert p[0..|sorted| + 1] == p;
    assert p[|sorted|] == None;
  }

  /** The smallest input that shows the extra node: [5] builds a root 5 with
      a right child whose datum is nil. */
  lemma InitializeAsWrittenSingleton(treeMergeSort: seq<int> -> seq<int>)
    requires treeMergeSort([5]) == [5]
    ensures InitializeAsWritten([5], treeMergeSort) == Node(Some(5), Nil, Node(None, Nil, Nil))
  {
    var p := WithNilPastEnd([5]);
    assert p == [Some(5), None];
    assert BuildTree(p, 1, 1) == Node(None, Nil, Nil);
    assert BuildTree(p, 0, 1) == Node(Some(5), Nil, BuildTree(p, 1, 1));
  }

  /** `initialize` with the end index corrected to the last element: the
      tree holds the sorted array in order, one node per element, and is
      balanced; a strictly ascending (duplicate-free) array gives a binary
      search tree. */
  function Initialize<T>(treeArray: seq<T>, treeMergeSort: seq<T> -> seq<T>): (root: Tree<T>)
    ensures treeArray == [] ==> root == Nil
    ensures treeArray != [] ==> Inorder(root) == treeMergeSort(treeArray)
    ensures Size(root) == if treeArray == [] then 0 else |treeMergeSort(treeArray)|
    ensures SizeBalanced(root) && HeightBalanced(root)
  {
    if treeArray == [] then Nil
    else
      var sorted := treeMergeSort(treeArray);
      var root := BuildTree(sorted, 0, |sorted| - 1);
      BuildTreeSizeBalanced(sorted, 0, |sorted| - 1);
      BuildTreeInorder(sorted, 0, |sorted| - 1);
      assert sorted[0..|sorted|] == sorted;
      SizeBalancedHeight(root);
      root
  }

  /** The corrected constructor gives a binary search tree exactly when the
      sort result is strictly ascending, that is, sorted without duplicates. */
  lemma InitializeIsBst(treeArray: seq<int>, treeMergeSort: seq<int> -> seq<int>)
    ensures treeArray == [] ==> IsBst(Initialize(treeArray, treeMergeSort))
    ensures treeArray != [] ==>
              (IsBst(Initialize(treeArray, treeMergeSort)) <==> StrictlyAscending(treeMergeSort(treeArray)))
  {
    if treeArray != [] {
      var sorted := treeMergeSort(treeArray);
      BuildTreeIsBst(sorted, 0, |sorted| - 1);
    }
  }
}
