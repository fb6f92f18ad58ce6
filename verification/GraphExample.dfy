/** The graph of the program's `main`, and what the two searches display of it. */
module GraphExample {
  import opened Collections
  import opened GraphSpec
  import opened SearchOrder
  import opened Graphs

  /** The six edges, both ways. */
  function ExampleEdges(): Edges {
    {(0, 1), (1, 0), (0, 2), (2, 0), (0, 3), (3, 0), (1, 4), (4, 1), (2, 4), (4, 2), (3, 4), (4, 3)}
  }

  /** Who can be entered from whom. */
  lemma ExampleLeads(u: nat, v: nat)
    ensures Leads(ExampleEdges(), 5, {}, u, v) <==> Near(u, v)
  {
  }

  lemma ExampleDepthFirst()
    ensures DepthFirst(ExampleEdges(), 5, {}, [0, 1, 4, 2, 3])
  {
    var e, out := ExampleEdges(), [0, 1, 4, 2, 3];
    forall u: nat, v: nat ensures Leads(e, 5, {}, u, v) <==> Near(u, v) { ExampleLeads(u, v); }
    assert out[..1] == [0] && out[..2] == [0, 1] && out[..3] == [0, 1, 4] && out[..4] == [0, 1, 4, 2];
    assert Deepens(e, 5, {}, out, 0, 1);
    assert Deepens(e, 5, {}, out, 1, 2);
    assert Deepens(e, 5, {}, out, 2, 3);
    assert Deepens(e, 5, {}, out, 2, 4);
    forall k | 1 <= k < |out| ensures DeepensAt(e, 5, {}, out, k) {
      assert Deepens(e, 5, {}, out, if k == 1 then 0 else if k == 2 then 1 else 2, k);
    }
  }

  predicate Near(u: nat, v: nat) {
    match u
    case 0 => v == 1 || v == 2 || v == 3
    case 1 => v == 0 || v == 4
    case 2 => v == 0 || v == 4
    case 3 => v == 0 || v == 4
    case 4 => v == 1 || v == 2 || v == 3
    case _ => false
  }

  lemma ExampleInTurn()
    ensures InTurn(ExampleEdges(), 5, {}, [0, 1, 2, 3, 4])
  {
    var e, out := ExampleEdges(), [0, 1, 2, 3, 4];
    forall u: nat, v: nat ensures Leads(e, 5, {}, u, v) <==> Near(u, v) { ExampleLeads(u, v); }
    forall k | 1 <= k < |out| ensures HasLead(e, 5, {}, out, k, |out|) {
      assert FirstLead(e, 5, {}, out, if k < 4 then 0 else 1, k);
    }
    forall i, j, p, q | 0 <= i < j < |out| && FirstLead(e, 5, {}, out, p, i) && FirstLead(e, 5, {}, out, q, j)
      ensures Precedes(out, i, p, j, q)
    {
      ExampleParent(p, i);
      ExampleParent(q, j);
    }
  }

  lemma ExampleParent(p: nat, k: nat)
    requires FirstLead(ExampleEdges(), 5, {}, [0, 1, 2, 3, 4], p, k)
    ensures p == if k < 4 then 0 else 1
  {
    var e, out := ExampleEdges(), [0, 1, 2, 3, 4];
    forall u: nat, v: nat ensures Leads(e, 5, {}, u, v) <==> Near(u, v) { ExampleLeads(u, v); }
    assert FirstLead(e, 5, {}, out, if k < 4 then 0 else 1, k);
    OneLead(e, 5, {}, out, p, if k < 4 then 0 else 1, k);
  }

  /** The vertices S, A, B, C, D and their edges. */
  method BuildExample() returns (g: Graph)
    ensures fresh(g) && fresh(g.visited) && fresh(g.adjMatrix) && fresh(g.labels)
    ensures g.Valid() && g.capacity == g.vertexCount == 5 && g.edges == ExampleEdges() && g.marks == {}
  {
    g := FiveVertices();
    g.AddEdge(0, 1);
    g.AddEdge(0, 2);
    g.AddEdge(0, 3);
    g.AddEdge(1, 4);
    g.AddEdge(2, 4);
    g.AddEdge(3, 4);
  }

  method FiveVertices() returns (g: Graph)
    ensures fresh(g) && fresh(g.visited) && fresh(g.adjMatrix) && fresh(g.labels)
    ensures g.Valid() && g.capacity == g.vertexCount == 5 && g.edges == {} && g.marks == {}
  {
    g := new Graph(5);
    g.AddVertex('S');
    g.AddVertex('A');
    g.AddVertex('B');
    g.AddVertex('C');
    g.AddVertex('D');
  }

  /** What the searches display: S A D B C and S A B C D. */
  method SearchExample() returns (depth: seq<nat>, breadth: seq<nat>)
    ensures depth == [0, 1, 4, 2, 3] && breadth == [0, 1, 2, 3, 4]
  {
    depth := DepthExample();
    breadth := BreadthExample();
    ExampleDepthFirst();
    ExampleInTurn();
    OneDepthFirstOrder(ExampleEdges(), 5, {}, depth, [0, 1, 4, 2, 3]);
    forall x ensures x in Members(breadth) <==> x in Members([0, 1, 2, 3, 4]) { }
    OneBreadthFirstOrder(ExampleEdges(), 5, {}, breadth, [0, 1, 2, 3, 4]);
  }

  method DepthExample() returns (shown: seq<nat>)
    ensures |shown| >= 1 && shown[0] == 0 && DepthFirst(ExampleEdges(), 5, {}, shown)
    ensures forall x :: x in shown <==> Reachable(ExampleEdges(), 5, {}, 0, x)
  {
    var g := BuildExample();
    shown := g.DepthFirstSearch();
  }

  method BreadthExample() returns (shown: seq<nat>)
    ensures |shown| >= 1 && shown[0] == 0 && InTurn(ExampleEdges(), 5, {}, shown) && Distinct(shown)
    ensures forall x :: x in shown <==> Reachable(ExampleEdges(), 5, {}, 0, x)
  {
    var g := BuildExample();
    ghost var dist;
    shown, dist := g.BreadthFirstSearch();
  }
}
