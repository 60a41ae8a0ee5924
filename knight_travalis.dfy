/** `KnightTravalis`: the shortest way for a knight to go from one square
    of a square board to another, found by breadth-first search over
    parent-linked nodes. Squares are coordinate arrays [x, y]. */
module KnightTravalis {
  import opened ReverseTree

  type Square = seq<int>
  type Node = ReverseTreeNode<Square>

  /** The only error the search can raise: `_add_arrays` on arrays of
      different lengths. */
  datatype Error = IndexError

  datatype Result<T> = Success(value: T) | Failure(error: Error)

  /** What `knight_moves` reports: the squares from the start to the last
      square examined, the number of moves between them, and whether that
      square is the target. */
  datatype Search = Search(squareOrder: seq<Square>, movesNeeded: nat, squareReached: bool)

  /** Element-wise sum of two arrays of the same length. */
  function Sum(a1: seq<int>, a2: seq<int>): seq<int>
    requires |a1| == |a2|
  {
    seq(|a1|, i requires 0 <= i < |a1| => a1[i] + a2[i])
  }

  /** The squares held by a sequence of nodes, in order. */
  function Squares(q: seq<Node>): seq<Square>
  {
    seq(|q|, i requires 0 <= i < |q| => q[i].data)
  }

  lemma SquaresAppend(q: seq<Node>, n: Node)
    ensures Squares(q + [n]) == Squares(q) + [n.data]
  {
    assert forall i :: 0 <= i < |q| ==> (q + [n])[i] == q[i];
  }

  /** Number of edges from a node up to its root. */
  ghost function Depth(n: Node): nat
  {
    |n.Ancestors|
  }

  /** Some node of the queue holds the square. */
  ghost predicate Queued(queue: seq<Node>, y: Square)
  {
    exists j :: 0 <= j < |queue| && queue[j].data == y
  }

  /** Some node of the queue at depth d holds the square. */
  ghost predicate QueuedAt(queue: seq<Node>, y: Square, d: nat)
  {
    exists j :: 0 <= j < |queue| && queue[j].data == y && Depth(queue[j]) == d
  }

  /** Breadth-first order: depths never decrease along the queue and
      differ by at most one. */
  ghost predicate Layered(queue: seq<Node>)
  {
    forall i, j :: 0 <= i <= j < |queue| ==>
      Depth(queue[i]) <= Depth(queue[j]) <= Depth(queue[i]) + 1
  }

  lemma LayeredStep(queue: seq<Node>, children: seq<Node>)
    requires queue != [] && Layered(queue)
    requires forall c :: 0 <= c < |children| ==> Depth(children[c]) == Depth(queue[0]) + 1
    ensures Layered(queue[1..] + children)
    ensures forall j :: 0 <= j < |queue[1..] + children| ==>
              Depth(queue[0]) <= Depth((queue[1..] + children)[j]) <= Depth(queue[0]) + 1
  {
    var next := queue[1..] + children;
    forall j | 0 <= j < |next|
      ensures Depth(queue[0]) <= Depth(next[j]) <= Depth(queue[0]) + 1
    {
      if j < |queue| - 1 {
        assert next[j] == queue[j + 1];
      }
    }
    forall i, j | 0 <= i <= j < |next|
      ensures Depth(next[i]) <= Depth(next[j]) <= Depth(next[i]) + 1
    {
      if j < |queue| - 1 {
        assert next[i] == queue[i + 1] && next[j] == queue[j + 1];
      } else if i < |queue| - 1 {
        assert next[i] == queue[i + 1];
      }
    }
  }

  lemma {:induction false} SubsetCard<T>(a: set<T>, b: set<T>)
    requires a <= b
    ensures |a| <= |b|
    decreases |a|
  {
    if a != {} {
      var e :| e in a;
      SubsetCard(a - {e}, b - {e});
    }
  }

  class KnightTravalis {
    const boardSize: int
    /** The eight knight moves, in the order the search tries them. */
    const movementSet: seq<seq<int>> := [[2, 1], [2, -1], [-2, 1], [-2, -1], [1, 2], [1, -2], [-1, 2], [-1, -2]]

    /** `KnightTravalis.new(board_size = 8)`. */
    constructor (boardSize: int := 8)
      ensures this.boardSize == boardSize
    {
      this.boardSize := boardSize;
    }

    /** Both coordinates lie in [0, board_size). */
    predicate OnBoard(square: Square)
      requires |square| >= 2
    {
      0 <= square[0] < boardSize && 0 <= square[1] < boardSize
    }

    /** One knight move from `x` that lands on the board at `y`. */
    ghost predicate KnightStep(x: Square, y: Square)
    {
      |x| == 2 && |y| == 2 && OnBoard(y) &&
      exists j :: 0 <= j < |movementSet| && y == Sum(x, movementSet[j])
    }

    /** The number of knight moves along a path: one fewer than its squares. */
    function Moves(p: seq<Square>): int
    {
      |p| - 1
    }

    /** A sequence of knight moves that begins at `start`. */
    ghost predicate IsPath(p: seq<Square>, start: Square)
    {
      |p| >= 1 && p[0] == start &&
      forall i :: 0 <= i < |p| - 1 ==> KnightStep(p[i], p[i + 1])
    }

    /** The node's chain goes back to a root holding `start`, one knight
        move per link. */
    ghost predicate Descends(n: Node, start: Square)
      decreases |n.Ancestors|
    {
      n.Valid() &&
      (n.parent == null ==> n.data == start) &&
      (n.parent != null ==> KnightStep(n.parent.data, n.data) && Descends(n.parent, start))
    }

    /** The route recorded by a node descending from `start` is a knight
        path from `start` to the node's square with one square per node. */
    lemma {:induction false} DescendsRoute(n: Node, start: Square)
      requires Descends(n, start)
      ensures IsPath(n.Route(), start)
      ensures |n.Route()| == Depth(n) + 1
      ensures n.Route()[Depth(n)] == n.data
      decreases |n.Ancestors|
    {
      if n.parent != null {
        DescendsRoute(n.parent, start);
        var p := n.Route();
        assert p == n.parent.Route() + [n.data];
        assert p[|p| - 2] == n.parent.data;
      }
    }

    /** Dropping the last square of a path of two or more squares leaves a path. */
    lemma PathPrefix(p: seq<Square>, start: Square)
      requires IsPath(p, start) && |p| >= 2
      ensures IsPath(p[..|p| - 1], start)
      ensures KnightStep(p[|p| - 2], p[|p| - 1])
    {
      var q := p[..|p| - 1];
      assert forall i :: 0 <= i < |q| ==> q[i] == p[i];
    }

    /** Every square one knight move away from a square of the history is in
        the history or in the queue. */
    ghost predicate Closed(history: seq<Square>, queue: seq<Node>)
    {
      forall x, y :: x in history && KnightStep(x, y) ==> y in history || Queued(queue, y)
    }

    /** With d the depth at the head of the queue: every square reachable in
        fewer than d moves has been visited, and every square reachable in
        exactly d moves has been visited or is queued at depth d. */
    ghost predicate Explored(history: seq<Square>, queue: seq<Node>, start: Square)
    {
      queue != [] ==>
        (forall p :: IsPath(p, start) && |p| - 1 < Depth(queue[0]) ==> p[|p| - 1] in history) &&
        (forall p :: IsPath(p, start) && |p| - 1 == Depth(queue[0]) ==>
           p[|p| - 1] in history || QueuedAt(queue, p[|p| - 1], Depth(queue[0])))
    }

    /** When every neighbour of the expanded square is visited or queued,
        the history stays closed after the square joins it. */
    lemma ClosedStep(history: seq<Square>, queue: seq<Node>, children: seq<Node>)
      requires queue != [] && Closed(history, queue)
      requires forall y :: KnightStep(queue[0].data, y) ==>
                 y in history + [queue[0].data] || Queued(queue[1..] + children, y)
      ensures Closed(history + [queue[0].data], queue[1..] + children)
    {
      var h, next := history + [queue[0].data], queue[1..] + children;
      forall u, y | u in h && KnightStep(u, y)
        ensures y in h || Queued(next, y)
      {
        if u != queue[0].data {
          assert u in history;
          assert y in history || Queued(queue, y);
          if y !in history {
            var j :| 0 <= j < |queue| && queue[j].data == y;
            if j > 0 {
              assert next[j - 1] == queue[j];
            }
          }
        }
      }
    }

    /** A square queued at depth d behind the head stays queued at depth d. */
    lemma QueuedAtStep(queue: seq<Node>, children: seq<Node>, y: Square, d: nat)
      requires queue != [] && QueuedAt(queue, y, d) && y != queue[0].data
      ensures QueuedAt(queue[1..] + children, y, d)
    {
      var j :| 0 <= j < |queue| && queue[j].data == y && Depth(queue[j]) == d;
      assert (queue[1..] + children)[j - 1] == queue[j];
    }

    /** Dequeuing the head, visiting it and queuing its children one level
        deeper keeps the exploration invariant. */
    lemma ExploredStep(history: seq<Square>, queue: seq<Node>, children: seq<Node>, start: Square)
      requires queue != [] && Layered(queue) && Explored(history, queue, start)
      requires forall c :: 0 <= c < |children| ==> Depth(children[c]) == Depth(queue[0]) + 1
      requires Closed(history + [queue[0].data], queue[1..] + children)
      ensures Explored(history + [queue[0].data], queue[1..] + children, start)
    {
      var h, next := history + [queue[0].data], queue[1..] + children;
      var d := Depth(queue[0]);
      LayeredStep(queue, children);
      if next != [] {
        var d' := Depth(next[0]);
        forall p | IsPath(p, start) && |p| - 1 < d'
          ensures p[|p| - 1] in h
        {
          VisitedBelow(history, queue, children, start, p);
        }
        forall p | IsPath(p, start) && |p| - 1 == d'
          ensures p[|p| - 1] in h || QueuedAt(next, p[|p| - 1], d')
        {
          var y := p[|p| - 1];
          if d' == d {
            if y != queue[0].data && y !in history {
              QueuedAtStep(queue, children, y, d);
            }
          } else {
            PathPrefix(p, start);
            VisitedBelow(history, queue, children, start, p[..|p| - 1]);
            assert p[..|p| - 1][|p| - 2] == p[|p| - 2];
            if y !in h {
              var j :| 0 <= j < |next| && next[j].data == y;
              assert Depth(next[j]) == d';
            }
          }
        }
      }
    }

    /** After the step, a path of fewer moves than the new head's depth ends
        at a visited square. */
    lemma VisitedBelow(history: seq<Square>, queue: seq<Node>, children: seq<Node>, start: Square, p: seq<Square>)
      requires queue != [] && Layered(queue) && Explored(history, queue, start)
      requires forall c :: 0 <= c < |children| ==> Depth(children[c]) == Depth(queue[0]) + 1
      requires queue[1..] + children != []
      requires IsPath(p, start) && |p| - 1 < Depth((queue[1..] + children)[0])
      ensures p[|p| - 1] in history + [queue[0].data]
    {
      var next := queue[1..] + children;
      var d := Depth(queue[0]);
      LayeredStep(queue, children);
      var y := p[|p| - 1];
      if |p| - 1 == d && y !in history && y != queue[0].data {
        QueuedAtStep(queue, children, y, d);
      }
    }

    /** A history closed under knight moves, with nothing left in the queue,
        holds every square any knight path from the start reaches. */
    lemma {:induction false} ClosedReachesAll(history: seq<Square>, start: Square, p: seq<Square>)
      requires Closed(history, []) && start in history
      requires IsPath(p, start)
      ensures p[|p| - 1] in history
      decreases |p|
    {
      if |p| >= 2 {
        PathPrefix(p, start);
        ClosedReachesAll(history, start, p[..|p| - 1]);
        assert p[..|p| - 1][|p| - 2] == p[|p| - 2];
      }
    }

    /** The squares a search can visit: those on the board and the start. */
    ghost function Universe(start: Square): set<Square>
    {
      (set x, y | 0 <= x < boardSize && 0 <= y < boardSize :: [x, y]) + {start}
    }

    lemma OnBoardInUniverse(y: Square, start: Square)
      requires |y| == 2 && OnBoard(y)
      ensures y in Universe(start)
    {
      assert y == [y[0], y[1]];
    }

    /** Squares of the universe not yet in the history. */
    ghost function Unvisited(history: seq<Square>, start: Square): set<Square>
    {
      set s | s in Universe(start) && s !in history
    }

    /** Queue entries whose square has already been visited. */
    ghost function StaleCount(queue: seq<Node>, history: seq<Square>): nat
    {
      if queue == [] then 0
      else (if queue[0].data in history then 1 else 0) + StaleCount(queue[1..], history)
    }

    lemma {:induction false} StaleCountAppend(a: seq<Node>, b: seq<Node>, history: seq<Square>)
      ensures StaleCount(a + b, history) == StaleCount(a, history) + StaleCount(b, history)
    {
      if a != [] {
        assert (a + b)[1..] == a[1..] + b;
        StaleCountAppend(a[1..], b, history);
      } else {
        assert a + b == b;
      }
    }

    lemma {:induction false} StaleCountFresh(q: seq<Node>, history: seq<Square>)
      requires forall c :: 0 <= c < |q| ==> q[c].data !in history
      ensures StaleCount(q, history) == 0
    {
      if q != [] {
        StaleCountFresh(q[1..], history);
      }
    }

    lemma {:induction false} StaleCountSameHistory(q: seq<Node>, history: seq<Square>, square: Square)
      requires square in history
      ensures StaleCount(q, history + [square]) == StaleCount(q, history)
    {
      if q != [] {
        StaleCountSameHistory(q[1..], history, square);
      }
    }

    /** Each pass of the search either visits a square of the universe for
        the first time, or dequeues a stale entry while queuing only fresh
        ones: the pair (unvisited squares, stale entries) decreases. */
    lemma MeasureStep(history: seq<Square>, queue: seq<Node>, children: seq<Node>, start: Square)
      requires queue != [] && queue[0].data in Universe(start)
      requires forall c :: 0 <= c < |children| ==> children[c].data !in history + [queue[0].data]
      ensures var h, next := history + [queue[0].data], queue[1..] + children;
              |Unvisited(h, start)| < |Unvisited(history, start)| ||
              (|Unvisited(h, start)| == |Unvisited(history, start)| && StaleCount(next, h) < StaleCount(queue, history))
    {
      var x := queue[0].data;
      var h := history + [x];
      if x !in history {
        assert x in Unvisited(history, start);
        SubsetCard(Unvisited(h, start), Unvisited(history, start) - {x});
      } else {
        assert Unvisited(h, start) == Unvisited(history, start);
        StaleCountAppend(queue[1..], children, h);
        StaleCountFresh(children, h);
        StaleCountSameHistory(queue[1..], history, x);
      }
    }

    /** `_valid?`: a square may be entered exactly when it is not in the
        history and both coordinates lie on the board. */
    function IsValid(currentData: Square, history: seq<Square>): (valid: bool)
      requires |currentData| >= 2
      ensures valid <==> currentData !in history && OnBoard(currentData)
      ensures !valid <==> (currentData in history || currentData[0] < 0 || currentData[0] >= boardSize ||
                           currentData[1] < 0 || currentData[1] >= boardSize)
    {
      !(currentData in history ||
        currentData[0] < 0 ||
        currentData[0] >= boardSize ||
        currentData[1] < 0 ||
        currentData[1] >= boardSize)
    }

    /** `_add_arrays`: IndexError when the lengths differ, otherwise the
        element-wise sum, computed one index at a time. */
    method AddArrays(firstArray: seq<int>, secondArray: seq<int>) returns (r: Result<seq<int>>)
      ensures r.Failure? <==> |firstArray| != |secondArray|
      ensures r.Success? ==> |r.value| == |firstArray|
      ensures r.Success? ==> forall i :: 0 <= i < |firstArray| ==> r.value[i] == firstArray[i] + secondArray[i]
      ensures r.Success? ==> r.value == Sum(firstArray, secondArray)
    {
      var arrayLength := |firstArray|;
      if arrayLength != |secondArray| {
        return Failure(IndexError);
      }
      var addCounter := 0;
      var result := [];
      while addCounter < arrayLength
        invariant 0 <= addCounter <= arrayLength
        invariant |result| == addCounter
        invariant forall i :: 0 <= i < addCounter ==> result[i] == firstArray[i] + secondArray[i]
      {
        result := result + [firstArray[addCounter] + secondArray[addCounter]];
        addCounter := addCounter + 1;
      }
      return Success(result);
    }

    /** A node queued while expanding `parent`: one knight move below it, on
        the board and not yet visited. */
    ghost predicate ChildOf(n: Node, parent: Node, history: seq<Square>, start: Square)
    {
      Descends(n, start) && n.parent == parent && Depth(n) == Depth(parent) + 1 &&
      |n.data| == 2 && OnBoard(n.data) && n.data !in history
    }

    /** The squares `_valid?` accepts among the first `j` moves from
        `square`, in `@movement_set` order. */
    function ValidMoves(square: Square, history: seq<Square>, j: nat): seq<Square>
      requires |square| == 2 && j <= |movementSet|
    {
      if j == 0 then []
      else
        var y := Sum(square, movementSet[j - 1]);
        ValidMoves(square, history, j - 1) + (if IsValid(y, history) then [y] else [])
    }

    /** A square is among the accepted moves exactly when one of the first
        `j` moves reaches it and `_valid?` accepts it. */
    lemma {:induction false} ValidMovesMembers(square: Square, history: seq<Square>, j: nat, y: Square)
      requires |square| == 2 && j <= |movementSet|
      ensures y in ValidMoves(square, history, j) <==>
                exists k :: 0 <= k < j && y == Sum(square, movementSet[k]) && IsValid(y, history)
    {
      if j > 0 {
        ValidMovesMembers(square, history, j - 1, y);
      }
    }

    /** From the corner [0, 0] of an 8 x 8 board with only the corner
        visited, the accepted moves are [2, 1] and [1, 2], whether or not
        they are already queued. */
    lemma ValidMovesCorner()
      requires boardSize == 8
      ensures ValidMoves([0, 0], [[0, 0]], |movementSet|) == [[2, 1], [1, 2]]
    {
      assert Sum([0, 0], [2, 1]) == [2, 1];
      assert Sum([0, 0], [2, -1]) == [2, -1];
      assert Sum([0, 0], [-2, 1]) == [-2, 1];
      assert Sum([0, 0], [-2, -1]) == [-2, -1];
      assert Sum([0, 0], [1, 2]) == [1, 2];
      assert Sum([0, 0], [1, -2]) == [1, -2];
      assert Sum([0, 0], [-1, 2]) == [-1, 2];
      assert Sum([0, 0], [-1, -2]) == [-1, -2];
    }

    /** The invariant of the loop over the moves: after the first `j` moves
        the queue is `base` followed by children of `parent`, and each of
        those moves that lands on the board reaches a visited or a queued
        square. */
    ghost predicate Pushed(parent: Node, history: seq<Square>, base: seq<Node>, queue: seq<Node>, j: int,
                           start: Square)
    {
      0 <= j <= |movementSet| && |base| <= |queue| && queue[..|base|] == base &&
      (forall c :: |base| <= c < |queue| ==> ChildOf(queue[c], parent, history, start)) &&
      (j > 0 ==> |parent.data| == 2) &&
      (|parent.data| == 2 ==> Squares(queue[|base|..]) == ValidMoves(parent.data, history, j)) &&
      forall k :: 0 <= k < j ==>
        (KnightStep(parent.data, Sum(parent.data, movementSet[k])) ==>
           Sum(parent.data, movementSet[k]) in history || Queued(queue, Sum(parent.data, movementSet[k])))
    }

    lemma PushedStart(parent: Node, history: seq<Square>, base: seq<Node>, start: Square)
      ensures Pushed(parent, history, base, base, 0, start)
    {
    }

    /** Queuing the node for move `j` keeps the invariant for one more move. */
    lemma PushedAdd(parent: Node, history: seq<Square>, base: seq<Node>, queue: seq<Node>, j: int,
                    start: Square, child: Node)
      requires Pushed(parent, history, base, queue, j, start) && j < |movementSet|
      requires |parent.data| == 2 && Descends(parent, start)
      requires child.parent == parent && child.Ancestors == [parent] + parent.Ancestors
      requires child.data == Sum(parent.data, movementSet[j])
      requires OnBoard(child.data) && child.data !in history
      ensures Pushed(parent, history, base, queue + [child], j + 1, start)
    {
      var q := queue + [child];
      ChildStep(child, parent, j, start);
      QueuedGrow(queue, child);
      assert q[..|base|] == base;
      assert q[|base|..] == queue[|base|..] + [child];
      SquaresAppend(queue[|base|..], child);
      assert forall c :: |base| <= c < |queue| ==> q[c] == queue[c];
    }

    /** Skipping move `j` when `_valid?` rejects its square keeps the invariant. */
    lemma PushedSkip(parent: Node, history: seq<Square>, base: seq<Node>, queue: seq<Node>, j: int,
                     start: Square)
      requires Pushed(parent, history, base, queue, j, start) && j < |movementSet|
      requires |parent.data| == 2
      requires !(Sum(parent.data, movementSet[j]) !in history && OnBoard(Sum(parent.data, movementSet[j])))
      ensures Pushed(parent, history, base, queue, j + 1, start)
    {
    }

    /** After all eight moves, every knight move from `parent` reaches a
        visited or a queued square. */
    lemma PushedDone(parent: Node, history: seq<Square>, base: seq<Node>, queue: seq<Node>, start: Square)
      requires Pushed(parent, history, base, queue, |movementSet|, start)
      ensures forall y :: KnightStep(parent.data, y) ==> y in history || Queued(queue, y)
    {
      forall y | KnightStep(parent.data, y)
        ensures y in history || Queued(queue, y)
      {
        var k :| 0 <= k < |movementSet| && y == Sum(parent.data, movementSet[k]);
      }
    }

    /** The `@movement_set.each` block of `knight_moves`: for each of the
        eight moves in order, add the move to the square (IndexError when the
        square is not a pair) and, when `_valid?` accepts the result, push a
        node for it whose parent is the current node. The queue grows by
        nodes one knight move below the current one, none of them visited,
        and afterwards every knight move from the current square lands on a
        visited or a queued square. */
    method EnqueueMoves(currentSquare: Node, history: seq<Square>, queue: seq<Node>, ghost start: Square)
      returns (r: Result<seq<Node>>)
      requires Descends(currentSquare, start)
      ensures r.Failure? <==> |currentSquare.data| != 2
      ensures r.Success? ==> |queue| <= |r.value| && r.value[..|queue|] == queue
      ensures r.Success? ==> forall c :: |queue| <= c < |r.value| ==>
                Descends(r.value[c], start) && r.value[c].parent == currentSquare &&
                Depth(r.value[c]) == Depth(currentSquare) + 1 &&
                |r.value[c].data| == 2 && OnBoard(r.value[c].data) && r.value[c].data !in history
      ensures r.Success? ==> forall y :: KnightStep(currentSquare.data, y) ==> y in history || Queued(r.value, y)
      ensures r.Success? ==> Squares(r.value[|queue|..]) == ValidMoves(currentSquare.data, history, |movementSet|)
    {
      var traversalQueue := queue;
      PushedStart(currentSquare, history, queue, start);
      var j := 0;
      while j < |movementSet|
        invariant Pushed(currentSquare, history, queue, traversalQueue, j, start)
      {
        var newSquareCoordinates := AddArrays(currentSquare.data, movementSet[j]);
        if newSquareCoordinates.Failure? {
          return Failure(newSquareCoordinates.error);
        }
        var y := newSquareCoordinates.value;
        if IsValid(y, history) {
          var child := new ReverseTreeNode(y, currentSquare);
          PushedAdd(currentSquare, history, queue, traversalQueue, j, start, child);
          traversalQueue := traversalQueue + [child];
        } else {
          PushedSkip(currentSquare, history, queue, traversalQueue, j, start);
        }
        j := j + 1;
      }
      PushedDone(currentSquare, history, queue, traversalQueue, start);
      return Success(traversalQueue);
    }

    /** The loop invariant of `knight_moves`: `root` holds the start square;
        before the first pass the queue is just the root; afterwards the
        start has been visited first and every queued square is a pair; the
        queue is in breadth-first order and every node in it, like the
        current node, descends from the start. While the target has not been
        reached, the history and queue are closed and explored and the
        target is unvisited; once reached, the current node holds it at the
        least depth any knight path allows. */
    ghost predicate SearchInv(history: seq<Square>, queue: seq<Node>, current: Node, reached: bool,
                              root: Node, start: Square, end: Square)
    {
      root.Valid() && root.data == start && root.parent == null &&
      (history == [] ==> queue == [root] && !reached) &&
      (history != [] ==> history[0] == start && (|start| == 2 || start == end)) &&
      (history != [] ==> forall j :: 0 <= j < |queue| ==> |queue[j].data| == 2) &&
      NodesOk(queue, current, start) &&
      (!reached ==> Frontier(history, queue, start, end)) &&
      (!reached && history != [] ==> current.data != end) &&
      (reached ==> current.data == end &&
                   forall p :: IsPath(p, start) && p[|p| - 1] == end ==> Depth(current) + 1 <= |p|)
    }

    /** Every queued node and the current one descend from the start, the
        queued squares lie in the universe, and the queue is layered. */
    ghost predicate NodesOk(queue: seq<Node>, current: Node, start: Square)
    {
      (forall j :: 0 <= j < |queue| ==> Descends(queue[j], start) && queue[j].data in Universe(start)) &&
      Layered(queue) && Descends(current, start)
    }

    /** The search has not yet met the target and its frontier is complete. */
    ghost predicate Frontier(history: seq<Square>, queue: seq<Node>, start: Square, end: Square)
    {
      Closed(history, queue) && Explored(history, queue, start) && end !in history
    }

    /** The termination measure of the search goes down, lexicographically. */
    ghost predicate Decreased(history: seq<Square>, queue: seq<Node>, history': seq<Square>, queue': seq<Node>,
                              start: Square)
    {
      |Unvisited(history', start)| < |Unvisited(history, start)| ||
      (|Unvisited(history', start)| == |Unvisited(history, start)| &&
       StaleCount(queue', history') < StaleCount(queue, history))
    }

    lemma SearchInit(root: Node, start: Square, end: Square)
      requires root.Valid() && root.data == start && root.parent == null
      ensures SearchInv([], [root], root, false, root, start, end)
    {
      assert root.Ancestors == [];
      forall p | IsPath(p, start) && |p| - 1 == Depth(root)
        ensures QueuedAt([root], p[|p| - 1], Depth(root))
      {
        assert [root][0].data == p[|p| - 1];
      }
      assert start in Universe(start);
    }

    /** A pass that dequeues the target ends the search with the invariant
        kept. */
    lemma SearchStepReached(history: seq<Square>, queue: seq<Node>, current: Node, root: Node,
                            start: Square, end: Square)
      requires SearchInv(history, queue, current, false, root, start, end)
      requires queue != [] && queue[0].data == end
      ensures SearchInv(history + [queue[0].data], queue[1..], queue[0], true, root, start, end)
      ensures Decreased(history, queue, history + [queue[0].data], queue[1..], start)
    {
      ReachedIsShortest(history, queue, start, end);
      LayeredStep(queue, []);
      assert queue[1..] + [] == queue[1..];
      MeasureStep(history, queue, [], start);
    }

    /** A pass that expands a square other than the target, queuing the
        nodes `_valid?` accepts, keeps the invariant. */
    lemma SearchStepExpand(history: seq<Square>, queue: seq<Node>, current: Node, next: seq<Node>, root: Node,
                           start: Square, end: Square)
      requires SearchInv(history, queue, current, false, root, start, end)
      requires queue != [] && queue[0].data != end && |queue[0].data| == 2
      requires |queue[1..]| <= |next| && next[..|queue[1..]|] == queue[1..]
      requires forall c :: |queue[1..]| <= c < |next| ==>
                 Descends(next[c], start) && next[c].parent == queue[0] &&
                 Depth(next[c]) == Depth(queue[0]) + 1 &&
                 |next[c].data| == 2 && OnBoard(next[c].data) && next[c].data !in history + [queue[0].data]
      requires forall y :: KnightStep(queue[0].data, y) ==> y in history + [queue[0].data] || Queued(next, y)
      ensures SearchInv(history + [queue[0].data], next, queue[0], false, root, start, end)
      ensures Decreased(history, queue, history + [queue[0].data], next, start)
    {
      var children := next[|queue| - 1..];
      assert next == queue[1..] + children;
      assert forall c :: 0 <= c < |children| ==> children[c] == next[|queue| - 1 + c];
      var h := history + [queue[0].data];
      assert forall c :: 0 <= c < |children| ==> ChildOf(children[c], queue[0], h, start);
      ExpandNodes(queue, children, h, start);
      ExpandFrontier(history, queue, children, start, end);
      MeasureStep(history, queue, children, start);
    }

    /** Expanding the head keeps every node descending from the start. */
    lemma ExpandNodes(queue: seq<Node>, children: seq<Node>, history: seq<Square>, start: Square)
      requires queue != [] && forall j :: 0 <= j < |queue| ==> Descends(queue[j], start) && queue[j].data in Universe(start)
      requires Layered(queue)
      requires forall c :: 0 <= c < |children| ==> ChildOf(children[c], queue[0], history, start)
      ensures NodesOk(queue[1..] + children, queue[0], start)
    {
      ChildrenFacts(children, queue[0], history, start);
      LayeredStep(queue, children);
      var next := queue[1..] + children;
      assert forall j :: 0 <= j < |queue| - 1 ==> next[j] == queue[j + 1];
      assert forall c :: 0 <= c < |children| ==> next[|queue| - 1 + c] == children[c];
    }

    /** Expanding a head other than the target keeps the frontier complete. */
    lemma ExpandFrontier(history: seq<Square>, queue: seq<Node>, children: seq<Node>, start: Square, end: Square)
      requires queue != [] && queue[0].data != end && Layered(queue) && Frontier(history, queue, start, end)
      requires forall c :: 0 <= c < |children| ==> Depth(children[c]) == Depth(queue[0]) + 1
      requires forall y :: KnightStep(queue[0].data, y) ==>
                 y in history + [queue[0].data] || Queued(queue[1..] + children, y)
      ensures Frontier(history + [queue[0].data], queue[1..] + children, start, end)
    {
      ClosedStep(history, queue, children);
      ExploredStep(history, queue, children, start);
    }

    /** `_add_arrays` can only fail on the very first square, the start. */
    lemma SearchFailure(history: seq<Square>, queue: seq<Node>, current: Node, root: Node,
                        start: Square, end: Square)
      requires SearchInv(history, queue, current, false, root, start, end)
      requires queue != [] && queue[0].data != end && |queue[0].data| != 2
      ensures |start| != 2 && start != end
    {
    }

    /** When the loop stops, the current node descends from the start, and it
        holds the target exactly when the target was reached; if not, no
        knight path reaches the target. */
    lemma SearchExit(history: seq<Square>, queue: seq<Node>, current: Node, reached: bool, root: Node,
                     start: Square, end: Square)
      requires SearchInv(history, queue, current, reached, root, start, end)
      requires queue == [] || reached
      ensures history != [] && (|start| == 2 || start == end)
      ensures Descends(current, start)
      ensures reached <==> current.data == end
      ensures !reached ==> forall p :: IsPath(p, start) ==> p[|p| - 1] != end
    {
      if !reached {
        forall p | IsPath(p, start)
          ensures p[|p| - 1] != end
        {
          ClosedReachesAll(history, start, p);
        }
      }
    }

    /** A node made for a move from an on-board-checked sum descends one
        knight move below its parent. */
    lemma ChildStep(child: Node, parent: Node, j: nat, start: Square)
      requires j < |movementSet| && |parent.data| == 2 && Descends(parent, start)
      requires child.parent == parent && child.Ancestors == [parent] + parent.Ancestors
      requires child.data == Sum(parent.data, movementSet[j]) && OnBoard(child.data)
      ensures Descends(child, start) && Depth(child) == Depth(parent) + 1
      ensures KnightStep(parent.data, child.data) && |child.data| == 2
    {
    }

    /** `knight_moves` without the printing: breadth-first search from the
        start square. The search fails with IndexError exactly when the start
        square is not a pair and is not already the target. Otherwise it
        reports the route to the last square it dequeued: a knight path from
        the start, which ends at the target exactly when the target was
        reached, and is then a shortest one; when the target was not reached,
        no knight path from the start reaches it. */
    method KnightMoves(startSquare: Square, endSquare: Square) returns (r: Result<Search>)
      ensures r.Failure? <==> |startSquare| != 2 && startSquare != endSquare
      ensures r.Success? ==> IsPath(r.value.squareOrder, startSquare)
      ensures r.Success? ==> r.value.movesNeeded == Moves(r.value.squareOrder)
      ensures r.Success? ==>
                (r.value.squareReached <==> r.value.squareOrder[|r.value.squareOrder| - 1] == endSquare)
      ensures r.Success? && r.value.squareReached ==>
                forall p :: IsPath(p, startSquare) && p[|p| - 1] == endSquare ==> r.value.movesNeeded <= Moves(p)
      ensures r.Success? && !r.value.squareReached ==>
                forall p :: IsPath(p, startSquare) ==> p[|p| - 1] != endSquare
    {
      var history: seq<Square> := [];
      var root := new ReverseTreeNode(startSquare, null);
      var traversalQueue: seq<Node> := [root];
      var squareReached := false;
      var currentSquare := root;
      SearchInit(root, startSquare, endSquare);
      while !(traversalQueue == [] || squareReached)
        invariant SearchInv(history, traversalQueue, currentSquare, squareReached, root, startSquare, endSquare)
        decreases |Unvisited(history, startSquare)|, StaleCount(traversalQueue, history)
      {
        ghost var queue, visited, previous := traversalQueue, history, currentSquare;
        currentSquare := traversalQueue[0];
        traversalQueue := traversalQueue[1..];
        history := history + [currentSquare.data];
        if currentSquare.data == endSquare {
          squareReached := true;
          SearchStepReached(visited, queue, previous, root, startSquare, endSquare);
        } else {
          var expanded := EnqueueMoves(currentSquare, history, traversalQueue, startSquare);
          if expanded.Failure? {
            SearchFailure(visited, queue, previous, root, startSquare, endSquare);
            return Failure(expanded.error);
          }
          SearchStepExpand(visited, queue, previous, expanded.value, root, startSquare, endSquare);
          traversalQueue := expanded.value;
        }
      }
      SearchExit(history, traversalQueue, currentSquare, squareReached, root, startSquare, endSquare);
      var squareOrder, movesNeeded := MinMovesData(currentSquare);
      DescendsRoute(currentSquare, startSquare);
      return Success(Search(squareOrder, movesNeeded - 1, squareReached));
    }

    /** The first time the target is dequeued, no knight path reaches it in
        fewer moves than the dequeued node's depth. */
    lemma ReachedIsShortest(history: seq<Square>, queue: seq<Node>, start: Square, end: Square)
      requires queue != [] && Explored(history, queue, start) && end !in history
      ensures forall p :: IsPath(p, start) && p[|p| - 1] == end ==> Depth(queue[0]) + 1 <= |p|
    {
    }

    /** Nodes queued by one expansion are in the universe of the search. */
    lemma ChildrenFacts(children: seq<Node>, parent: Node, history: seq<Square>, start: Square)
      requires forall c :: 0 <= c < |children| ==> ChildOf(children[c], parent, history, start)
      ensures forall c :: 0 <= c < |children| ==> children[c].data in Universe(start)
    {
      forall c | 0 <= c < |children|
        ensures children[c].data in Universe(start)
      {
        OnBoardInUniverse(children[c].data, start);
      }
    }

    lemma QueuedGrow(queue: seq<Node>, child: Node)
      ensures forall y :: Queued(queue, y) ==> Queued(queue + [child], y)
      ensures Queued(queue + [child], child.data)
    {
      forall y | Queued(queue, y)
        ensures Queued(queue + [child], y)
      {
        var j :| 0 <= j < |queue| && queue[j].data == y;
        assert (queue + [child])[j] == queue[j];
      }
      assert (queue + [child])[|queue|] == child;
    }

    /** `_min_moves_data` without the text: walks the parent links from the
        given node to the root, putting each square at the front, and counts
        the squares. The result is the node's route, root first. */
    method MinMovesData(givenNode: Node) returns (squareOrder: seq<Square>, movesNeeded: nat)
      requires givenNode.Valid()
      ensures squareOrder == givenNode.Route()
      ensures movesNeeded == |squareOrder| == |givenNode.Ancestors| + 1
    {
      movesNeeded := 0;
      var currentNode: ReverseTreeNode?<Square> := givenNode;
      squareOrder := [];
      while currentNode != null
        invariant currentNode != null ==> currentNode.Valid()
        invariant RouteOf(currentNode) + squareOrder == givenNode.Route()
        invariant movesNeeded == |squareOrder|
        decreases if currentNode == null then 0 else |currentNode.Ancestors| + 1
      {
        assert RouteOf(currentNode) == RouteOf(currentNode.parent) + [currentNode.data];
        squareOrder := [currentNode.data] + squareOrder;
        currentNode := currentNode.parent;
        movesNeeded := movesNeeded + 1;
      }
      givenNode.RouteLength();
    }

    /** The count `_min_moves_data` reports is the number of squares on the
        route, one more than the number of moves along it; for a search that
        starts on its target the route is the start alone, with no move, yet
        the count is one. */
    lemma MovesNeededCountsSquares(n: Node, start: Square)
      requires Descends(n, start)
      ensures IsPath(n.Route(), start) && |n.Route()| == Moves(n.Route()) + 1 == Depth(n) + 1
      ensures n.parent == null ==> n.Route() == [start] && Moves(n.Route()) == 0 && |n.Route()| == 1
    {
      DescendsRoute(n, start);
    }
  }
}
