/** The graph program: an adjacency matrix, a bounded queue, and the two searches. */
module Graphs {
  import opened Collections
  import opened Stacks
  import opened GraphSpec
  import opened SearchOrder

  class Queue {
    const capacity: nat
    const queue: array<int>
    var tail: int

    ghost predicate Valid()
      reads this
    {
      queue.Length == capacity && -1 <= tail < capacity
    }

    /** The values in the queue, the front one first. */
    ghost function Contents(): seq<int>
      requires Valid()
      reads this, queue
    {
      queue[..tail + 1]
    }

    constructor (cap: nat)
      ensures Valid() && Contents() == [] && capacity == cap && fresh(queue)
    {
      capacity, queue, tail := cap, new int[cap], -1;
    }

    /** An entry for a full queue is dropped. */
    method Enqueue(value: int)
      requires Valid()
      modifies this, queue
      ensures Valid()
      ensures Contents() == if |old(Contents())| == capacity then old(Contents()) else old(Contents()) + [value]
    {
      if tail == capacity - 1 { return; }
      tail := tail + 1;
      queue[tail] := value;
    }

    /** The front leaves and the others move up; an empty queue gives -1. */
    method Dequeue() returns (value: int)
      requires Valid()
      modifies this, queue
      ensures Valid()
      ensures old(Contents()) == [] ==> value == -1 && Contents() == []
      ensures old(Contents()) != [] ==> old(Contents()) == [value] + Contents()
    {
      if tail == -1 { return -1; }
      value := queue[0];
      ghost var before := queue[..];
      var i := 0;
      while i < tail
        modifies queue
        invariant 0 <= i <= tail
        invariant forall k :: 0 <= k < i ==> queue[k] == before[k + 1]
        invariant forall k :: i <= k < capacity ==> queue[k] == before[k]
      {
        queue[i] := queue[i + 1];
        i := i + 1;
      }
      tail := tail - 1;
    }

    method Peek() returns (value: int)
      requires Valid() && Contents() != []
      ensures value == Contents()[0]
    {
      value := queue[0];
    }

    method IsEmpty() returns (empty: bool)
      requires Valid()
      ensures empty <==> Contents() == []
    {
      empty := tail == -1;
    }
  }

  class Graph {
    const capacity: nat
    const labels: array<char>
    const visited: array<bool>
    const adjMatrix: array2<int>
    var vertexCount: nat

    /** The edges of the matrix and the visited vertices. */
    ghost var edges: Edges
    ghost var marks: set<nat>

    ghost predicate Valid()
      reads this, visited, adjMatrix
    {
      && labels.Length == visited.Length == capacity
      && adjMatrix.Length0 == adjMatrix.Length1 == capacity
      && vertexCount <= capacity
      && (forall i: nat, j: nat :: i < capacity && j < capacity ==> (adjMatrix[i, j] == 1 <==> (i, j) in edges))
      && (forall i: nat :: i < capacity ==> (visited[i] <==> i in marks))
    }

    /** The constructor, with a matrix of zeros. */
    constructor (n: nat)
      ensures Valid() && capacity == n && vertexCount == 0 && edges == {} && marks == {}
      ensures fresh(labels) && fresh(visited) && fresh(adjMatrix)
    {
      capacity, vertexCount := n, 0;
      labels, visited := new char[n], new bool[n](_ => false);
      adjMatrix := new int[n, n]((_, _) => 0);
      edges, marks := {}, {};
    }

    method AddVertex(name: char)
      requires Valid() && vertexCount < capacity
      modifies this`vertexCount, this`marks, labels, visited
      ensures Valid() && vertexCount == old(vertexCount) + 1
      ensures marks == old(marks) - {old(vertexCount)}
      ensures labels[..] == old(labels[..])[old(vertexCount) := name]
    {
      labels[vertexCount] := name;
      visited[vertexCount] := false;
      marks := marks - {vertexCount};
      vertexCount := vertexCount + 1;
    }

    /** Edges go both ways. */
    method AddEdge(start: nat, end: nat)
      requires Valid() && start < capacity && end < capacity
      modifies this`edges, adjMatrix
      ensures Valid() && edges == old(edges) + {(start, end), (end, start)}
    {
      adjMatrix[start, end] := 1;
      adjMatrix[end, start] := 1;
      edges := edges + {(start, end), (end, start)};
    }

    /** The first neighbour that is not visited, or -1. */
    method GetAdjUnvisitedVertex(v: nat) returns (j: int)
      requires Valid() && v < capacity
      ensures var f := FirstFrom(edges, vertexCount, v, marks, 0);
        j == if f == vertexCount then -1 else f
    {
      var i: nat := 0;
      while i < vertexCount
        invariant i <= vertexCount
        invariant FirstFrom(edges, vertexCount, v, marks, 0) == FirstFrom(edges, vertexCount, v, marks, i)
      {
        if adjMatrix[v, i] == 1 && !visited[i] { return i; }
        i := i + 1;
      }
      j := -1;
    }

    method Mark(j: nat)
      requires Valid() && j < capacity
      modifies this`marks, visited
      ensures Valid() && marks == old(marks) + {j}
    {
      visited[j] := true;
      marks := marks + {j};
    }

    // -------------------------------------------------------------- depth first

    /** One turn of the loop: an open neighbour is displayed and pushed, or the top is popped. */
    method DepthStep(stack: Stack, shown: seq<nat>, ghost e: Edges, ghost n: nat, ghost st: seq<nat>, ghost vis: set<nat>,
                     ghost shut: set<nat>, ghost goal: (seq<nat>, set<nat>))
      returns (shown': seq<nat>, ghost st': seq<nat>, ghost vis': set<nat>)
      requires Valid() && stack.Valid() && stack.capacity == capacity && stack.stack as object != visited
      requires stack.Contents() == st != [] && marks == vis && edges == e && vertexCount == n
      requires Deep(e, n, capacity, shut, st, vis, shown, goal)
      modifies this`marks, visited, stack, stack.stack
      ensures Valid() && stack.Valid() && stack.Contents() == st' && marks == vis'
      ensures Deep(e, n, capacity, shut, st', vis', shown', goal) && shown <= shown'
      ensures Unvisited(n, vis') < Unvisited(n, vis) || (vis' == vis && |st'| < |st|)
    {
      var i := stack.Peek();
      var j := GetAdjUnvisitedVertex(i);
      if j != -1 {
        DeepPush(e, n, capacity, shut, st, vis, shown, goal);
        Descend(stack, j, st);
        shown', st', vis' := shown + [j], st + [j], vis + {j};
      } else {
        DeepPop(e, n, capacity, shut, st, vis, shown, goal);
        var _ := stack.Pop();
        shown', st', vis' := shown, st[..|st| - 1], vis;
      }
    }

    /** A vertex is marked and pushed. */
    method Descend(stack: Stack, j: nat, ghost st: seq<nat>)
      requires Valid() && j < capacity && stack.Valid() && stack.stack as object != visited
      requires stack.Contents() == st && |st| < stack.capacity
      modifies this`marks, visited, stack, stack.stack
      ensures Valid() && marks == old(marks) + {j} && stack.Valid() && stack.Contents() == st + [j]
    {
      Mark(j);
      stack.Push(j);
    }

    /** `depthFirstSearch`: the vertices reachable from 0 in the order of the recursive search,
        each the lowest new neighbour of the one displayed last of those that have any. */
    method DepthFirstSearch() returns (shown: seq<nat>)
      requires Valid() && capacity >= 1
      modifies this`marks, visited
      ensures Valid() && (shown, marks) == Search(edges, vertexCount, 0, old(marks))
      ensures Distinct(shown) && forall x :: x in shown <==> Reachable(edges, vertexCount, old(marks), 0, x)
      ensures |shown| >= 1 && shown[0] == 0 && DepthFirst(edges, vertexCount, old(marks), shown)
    {
      ghost var shut := marks;
      shown := DepthFirstOrder();
      SearchMeetsReachable(edges, vertexCount, shut, 0);
    }

    method DepthFirstOrder() returns (shown: seq<nat>)
      requires Valid() && capacity >= 1
      modifies this`marks, visited
      ensures Valid() && (shown, marks) == Search(edges, vertexCount, 0, old(marks))
      ensures [0] <= shown && DepthFirst(edges, vertexCount, old(marks), shown)
    {
      ghost var e, n, shut := edges, vertexCount, marks;
      var stack := StartDepth();
      DeepStart(e, n, capacity, shut, 0);
      shown := DepthLoop(stack, [0], e, n, [0], shut + {0}, shut, Search(e, n, 0, shut));
    }

    /** Vertex 0 is displayed and pushed. */
    method StartDepth() returns (stack: Stack)
      requires Valid() && capacity >= 1
      modifies this`marks, visited
      ensures Valid() && marks == old(marks) + {0}
      ensures fresh(stack) && fresh(stack.stack) && stack.Valid() && stack.capacity == capacity && stack.Contents() == [0]
    {
      stack := new Stack(capacity, 0);
      Mark(0);
      stack.Push(0);
    }

    method DepthLoop(stack: Stack, first: seq<nat>, ghost e: Edges, ghost n: nat, ghost st0: seq<nat>, ghost vis0: set<nat>,
                     ghost shut: set<nat>, ghost goal: (seq<nat>, set<nat>))
      returns (shown: seq<nat>)
      requires Valid() && stack.Valid() && stack.capacity == capacity && stack.stack as object != visited
      requires stack.Contents() == st0 && marks == vis0 && edges == e && vertexCount == n
      requires Deep(e, n, capacity, shut, st0, vis0, first, goal)
      modifies this`marks, visited, stack, stack.stack
      ensures Valid() && goal == (shown, marks) && first <= shown && DepthFirst(e, n, shut, shown)
    {
      shown := first;
      ghost var st, vis := st0, vis0;
      var empty := stack.IsEmpty();
      while !empty
        invariant Valid() && stack.Valid() && stack.Contents() == st && marks == vis && empty == (st == [])
        invariant Deep(e, n, capacity, shut, st, vis, shown, goal) && first <= shown
        decreases Unvisited(n, vis), |st|
      {
        shown, st, vis := DepthStep(stack, shown, e, n, st, vis, shut, goal);
        empty := stack.IsEmpty();
      }
      DeepDone(e, n, capacity, shut, vis, shown, goal);
    }

    // -------------------------------------------------------------- breadth first

    /** What is displayed but not explored is in the queue; displayed is visited. */
    ghost predicate Queued(queue: Queue, shut: set<nat>, shown: seq<nat>, h: nat)
      reads this, visited, adjMatrix, queue, queue.queue
    {
      && Valid() && queue.Valid() && queue.capacity == capacity && h <= |shown|
      && queue.Contents() == shown[h..]
      && marks == shut + Members(shown)
    }

    /** One turn of the loop: an open neighbour of the front is displayed and queued, or the
        front leaves. */
    method BreadthStep(queue: Queue, shown: seq<nat>, ghost e: Edges, ghost n: nat, ghost shut: set<nat>, ghost dist: seq<nat>, ghost h: nat)
      returns (shown': seq<nat>, ghost dist': seq<nat>, ghost h': nat)
      requires Queued(queue, shut, shown, h) && h < |shown| && queue.queue as object != visited
      requires edges == e && vertexCount == n
      requires Searching(e, n, shut, 0, shown, dist, h) && Below(shown, capacity) && Turns(e, n, shut, shown, h)
      modifies this`marks, visited, queue, queue.queue
      ensures Queued(queue, shut, shown', h') && Below(shown', capacity)
      ensures Searching(e, n, shut, 0, shown', dist', h') && Turns(e, n, shut, shown', h')
      ensures |shown'| - |shown| + h' - h == 1 && |shown'| >= |shown| && h' >= h
    {
      var i := queue.Peek();
      assert i == shown[h];
      ghost var vis := marks;
      var j := GetAdjUnvisitedVertex(i);
      if j != -1 {
        LowestNew(e, n, shut, vis, shown, i);
        FoundOne(e, n, shut, 0, shown, dist, h, j);
        NextInTurn(e, n, shut, shown, dist, h, j);
        Visit(queue, j, shut, shown, h);
        shown', dist', h' := shown + [j], dist + [dist[h] + 1], h;
      } else {
        AllMet(e, n, shut, vis, shown, shown[h]);
        DoneWithOne(e, n, shut, 0, shown, dist, h);
        TurnDone(e, n, shut, shown, h);
        var _ := queue.Dequeue();
        shown', dist', h' := shown, dist, h + 1;
      }
    }

    lemma NextInTurn(e: Edges, n: nat, shut: set<nat>, shown: seq<nat>, dist: seq<nat>, h: nat, j: nat)
      requires Searching(e, n, shut, 0, shown, dist, h) && h < |shown| && Turns(e, n, shut, shown, h)
      requires Leads(e, n, shut, shown[h], j) && j !in shown
      requires forall w: nat :: w < j && Leads(e, n, shut, shown[h], w) ==> w in shown
      ensures Turns(e, n, shut, shown + [j], h)
    {
      forall p, w | 0 <= p < h && Leads(e, n, shut, shown[p], w) ensures w in shown {
        assert Explored(e, n, shut, shown, dist, p);
        assert Met(shown, dist, w, dist[p] + 1);
      }
      TurnFound(e, n, shut, shown, h, j);
    }

    method Visit(queue: Queue, j: nat, ghost shut: set<nat>, ghost shown: seq<nat>, ghost h: nat)
      requires Queued(queue, shut, shown, h) && h < |shown| && queue.queue as object != visited
      requires Distinct(shown + [j]) && Below(shown, capacity) && j < capacity
      modifies this`marks, visited, queue, queue.queue
      ensures Queued(queue, shut, shown + [j], h) && Below(shown + [j], capacity)
    {
      QueueRoom(shown, j, h);
      Mark(j);
      queue.Enqueue(j);
      assert Members(shown + [j]) == Members(shown) + {j};
    }

    /** There is room in the queue for a vertex that was not displayed before. */
    lemma QueueRoom(shown: seq<nat>, j: nat, h: nat)
      requires h < |shown| && Distinct(shown + [j]) && Below(shown, capacity) && j < capacity
      ensures |shown[h..]| < capacity && (shown + [j])[h..] == shown[h..] + [j] && Below(shown + [j], capacity)
    {
      DistinctBelow(shown + [j], capacity);
    }

    /** `breadthFirstSearch`: the vertices reachable from 0, by non-decreasing distance, and in the
        order in which they can first be entered. */
    method BreadthFirstSearch() returns (shown: seq<nat>, ghost dist: seq<nat>)
      requires Valid() && capacity >= 1
      modifies this`marks, visited
      ensures Valid()
      ensures ByDistance(edges, vertexCount, old(marks), 0, shown, dist)
      ensures |shown| >= 1 && shown[0] == 0 && InTurn(edges, vertexCount, old(marks), shown)
      ensures marks == old(marks) + Members(shown)
    {
      ghost var e, n, shut := edges, vertexCount, marks;
      var queue := StartBreadth(shut);
      StartSearch(e, n, shut, 0);
      StartTurns(e, n, shut, 0);
      shown, dist := BreadthLoop(queue, [0], e, n, shut, [0]);
      SearchEnds(e, n, shut, 0, shown, dist);
      TurnsEnd(e, n, shut, shown);
    }

    /** Vertex 0 is displayed and queued. */
    method StartBreadth(ghost shut: set<nat>) returns (queue: Queue)
      requires Valid() && capacity >= 1 && marks == shut
      modifies this`marks, visited
      ensures fresh(queue) && fresh(queue.queue)
      ensures Queued(queue, shut, [0], 0) && Below([0], capacity)
    {
      queue := new Queue(capacity);
      Mark(0);
      queue.Enqueue(0);
      MembersAdd([], 0);
      assert [] + [0] == [0];
    }

    method BreadthLoop(queue: Queue, first: seq<nat>, ghost e: Edges, ghost n: nat, ghost shut: set<nat>, ghost dist0: seq<nat>)
      returns (shown: seq<nat>, ghost dist: seq<nat>)
      requires Queued(queue, shut, first, 0) && queue.queue as object != visited
      requires edges == e && vertexCount == n
      requires Searching(e, n, shut, 0, first, dist0, 0) && Below(first, capacity) && Turns(e, n, shut, first, 0)
      modifies this`marks, visited, queue, queue.queue
      ensures Valid() && marks == shut + Members(shown)
      ensures Searching(e, n, shut, 0, shown, dist, |shown|) && Turns(e, n, shut, shown, |shown|)
    {
      shown, dist := first, dist0;
      ghost var h := 0;
      var empty := queue.IsEmpty();
      while !empty
        invariant Queued(queue, shut, shown, h) && empty == (h == |shown|)
        invariant Searching(e, n, shut, 0, shown, dist, h) && Below(shown, capacity) && Turns(e, n, shut, shown, h)
        decreases 2 * capacity - |shown| - h
      {
        shown, dist, h := BreadthStep(queue, shown, e, n, shut, dist, h);
        DistinctBelow(shown, capacity);
        empty := queue.IsEmpty();
      }
    }
  }

  ghost predicate Below(s: seq<nat>, c: nat) {
    forall k :: 0 <= k < |s| ==> s[k] < c
  }
}
