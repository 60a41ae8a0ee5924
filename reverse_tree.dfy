/** `ReverseTreeNode`: a tree whose nodes point to their parent instead of
    their children. A node is never changed after it is created, so its
    fields are constants; the ghost sequence `Ancestors` lists the parent,
    the grandparent and so on up to the root, which keeps the chain finite
    and acyclic. */
module ReverseTree {

  /** A sequence read from its last element to its first. */
  function Reverse<T>(s: seq<T>): seq<T>
  {
    if s == [] then [] else Reverse(s[1..]) + [s[0]]
  }

  /** The route of a node, or nothing for a missing (nil) node. */
  ghost function RouteOf<T>(n: ReverseTreeNode?<T>): seq<T>
    requires n != null ==> n.Valid()
  {
    if n == null then [] else n.Route()
  }

  class ReverseTreeNode<T> {
    const data: T
    const parent: ReverseTreeNode?<T>
    ghost const Ancestors: seq<ReverseTreeNode<T>>

    /** The ancestor list follows the parent links, all the way up. */
    ghost predicate Valid()
      decreases |Ancestors|
    {
      (parent == null ==> Ancestors == []) &&
      (parent != null ==> Ancestors == [parent] + parent.Ancestors && parent.Valid())
    }

    /** `ReverseTreeNode.new(data, parent)`. */
    constructor (data: T, parent: ReverseTreeNode?<T>)
      requires parent != null ==> parent.Valid()
      ensures this.data == data && this.parent == parent
      ensures Ancestors == if parent == null then [] else [parent] + parent.Ancestors
      ensures Valid()
    {
      this.data := data;
      this.parent := parent;
      this.Ancestors := if parent == null then [] else [parent] + parent.Ancestors;
    }

    /** The node at the top of the chain. */
    ghost function Root(): ReverseTreeNode<T>
      requires Valid()
      decreases |Ancestors|
    {
      if parent == null then this else parent.Root()
    }

    /** Data from this node up to the root, this node first. */
    ghost function Trace(): seq<T>
      requires Valid()
      decreases |Ancestors|
    {
      if parent == null then [data] else [data] + parent.Trace()
    }

    /** Data from the root down to this node, the root first. */
    ghost function Route(): seq<T>
      requires Valid()
      decreases |Ancestors|
    {
      if parent == null then [data] else parent.Route() + [data]
    }

    /** The trace starts with this node's data, continues with the data of
        each ancestor in turn, and ends with the root's data; its length is
        the number of nodes from this one to the root. */
    lemma {:induction false} TraceShape()
      requires Valid()
      ensures |Trace()| == |Ancestors| + 1
      ensures Trace()[0] == data
      ensures forall i :: 0 <= i < |Ancestors| ==> Trace()[i + 1] == Ancestors[i].data
      ensures Trace()[|Ancestors|] == Root().data && Root().parent == null
      decreases |Ancestors|
    {
      if parent != null {
        parent.TraceShape();
      }
    }

    /** Each ancestor's parent is the next ancestor; the last one is the root. */
    lemma {:induction false} AncestorLinks()
      requires Valid()
      ensures forall i :: 0 <= i < |Ancestors| ==> Ancestors[i].Valid()
      ensures forall i :: 0 <= i < |Ancestors| - 1 ==> Ancestors[i].parent == Ancestors[i + 1]
      ensures parent == null || Ancestors[|Ancestors| - 1].parent == null
      decreases |Ancestors|
    {
      if parent != null {
        parent.AncestorLinks();
        assert forall i :: 1 <= i < |Ancestors| ==> Ancestors[i] == parent.Ancestors[i - 1];
      }
    }

    /** The route, root first, is the trace read backwards. */
    lemma {:induction false} RouteIsReversedTrace()
      requires Valid()
      ensures Route() == Reverse(Trace())
      decreases |Ancestors|
    {
      if parent != null {
        parent.RouteIsReversedTrace();
        assert ([data] + parent.Trace())[1..] == parent.Trace();
      }
    }

    /** The route holds one entry per node from the root down to this one. */
    lemma {:induction false} RouteLength()
      requires Valid()
      ensures |Route()| == |Ancestors| + 1
      decreases |Ancestors|
    {
      if parent != null {
        parent.RouteLength();
      }
    }

    /** `trace_ancestory`: starting from this node's data, follow the parent
        links and collect each node's data until there is no parent. */
    method TraceAncestory() returns (result: seq<T>)
      requires Valid()
      ensures result == Trace()
    {
      result := [data];
      var currentNode := parent;
      while currentNode != null
        invariant currentNode != null ==> currentNode.Valid()
        invariant result + (if currentNode == null then [] else currentNode.Trace()) == Trace()
        decreases if currentNode == null then 0 else |currentNode.Ancestors| + 1
      {
        result := result + [currentNode.data];
        currentNode := currentNode.parent;
      }
    }
  }
}
