/**
  Call sequences from the repository's tests (dag_test.go), replayed against
  the contracts of the operations: what each call returns follows from those
  contracts alone.
*/
module Scenarios {
  import opened Wrappers
  import opened Graph
  import opened Errors
  import opened DagState
  import opened DagClosure
  import opened DagMutation

  /** A vertex without children reaches nothing. */
  lemma Childless(adj: Adjacency, v: Vertex)
    requires forall b :: !Edge(adj, v, b)
    ensures Closure(adj, v) == {}
  {
    EmptyClosureIffNoNeighbours(adj, v);
  }

  /** The closures of the chain 1 -> 2. */
  lemma OneEdge(g: Dag, v1: Vertex, v2: Vertex)
    requires Mirror(g.out, g.inn) && v1 != v2
    requires forall a, b :: Edge(g.out, a, b) <==> a == v1 && b == v2
    ensures Desc(g, v1) == {v2} && Anc(g, v2) == {v1}
  {
    Childless(g.out, v2);
    ClosureOfOnlyChild(g.out, v1, v2);
    Childless(g.inn, v1);
    ClosureOfOnlyChild(g.inn, v2, v1);
  }

  /** The closures of the chain 1 -> 2 -> 3. */
  lemma TwoEdges(g: Dag, v1: Vertex, v2: Vertex, v3: Vertex)
    requires Mirror(g.out, g.inn) && v1 != v2 && v1 != v3 && v2 != v3
    requires forall a, b :: Edge(g.out, a, b) <==> (a == v1 && b == v2) || (a == v2 && b == v3)
    ensures Desc(g, v1) == {v2, v3} && Anc(g, v3) == {v1, v2}
  {
    Childless(g.out, v3);
    ClosureOfOnlyChild(g.out, v2, v3);
    ClosureOfOnlyChild(g.out, v1, v2);
    Childless(g.inn, v1);
    ClosureOfOnlyChild(g.inn, v2, v1);
    ClosureOfOnlyChild(g.inn, v3, v2);
  }

  /** The closures of the chain 0 -> 1 -> 2 -> 3. */
  lemma ThreeEdges(g: Dag, v0: Vertex, v1: Vertex, v2: Vertex, v3: Vertex)
    requires Mirror(g.out, g.inn)
    requires v0 != v1 && v0 != v2 && v0 != v3 && v1 != v2 && v1 != v3 && v2 != v3
    requires forall a, b :: Edge(g.out, a, b) <==>
      (a == v1 && b == v2) || (a == v2 && b == v3) || (a == v0 && b == v1)
    ensures Desc(g, v0) == {v1, v2, v3} && Anc(g, v3) == {v0, v1, v2}
    ensures v2 in Desc(g, v1)
  {
    Childless(g.out, v3);
    ClosureOfOnlyChild(g.out, v2, v3);
    ClosureOfOnlyChild(g.out, v1, v2);
    ClosureOfOnlyChild(g.out, v0, v1);
    Childless(g.inn, v0);
    ClosureOfOnlyChild(g.inn, v1, v0);
    ClosureOfOnlyChild(g.inn, v2, v1);
    ClosureOfOnlyChild(g.inn, v3, v2);
  }

  /** AddEdge on an edge it accepts, seen through the edge relation. */
  method Extend(g: Dag, src: Vertex, dst: Vertex) returns (g': Dag)
    requires Inv(g) && src != dst && !Edge(g.out, src, dst) && src !in Desc(g, dst)
    ensures Inv(g') && g'.vertices == g.vertices + {src, dst}
    ensures forall a, b :: Edge(g'.out, a, b) <==> Edge(g.out, a, b) || (a == src && b == dst)
  {
    var err;
    g', err := AddEdge(g, Some(src), Some(dst));
    EdgesAreOutboundEdges(g);
    EdgesAreOutboundEdges(g');
  }

  /** The sizes of the descendants of `x` and the ancestors of `y`, as the tests read them. */
  method ClosureSizes(g: Dag, x: Vertex, y: Vertex) returns (g': Dag, dx: nat, ay: nat)
    requires Inv(g) && x in g.vertices && y in g.vertices
    ensures Inv(g') && g'.vertices == g.vertices && g'.out == g.out && g'.inn == g.inn
    ensures dx == |Desc(g, x)| && ay == |Anc(g, y)|
  {
    var r;
    r, g' := GetDescendants(g, Some(x));
    dx := |r.value|;
    r, g' := GetAncestors(g', Some(y));
    ay := |r.value|;
  }

  /** A new DAG after AddVertex on each of `vs` in turn: those vertices, no edges. */
  method Vertices(vs: seq<Vertex>) returns (g: Dag)
    ensures Inv(g)
    ensures g.vertices == set v | v in vs
    ensures g.out == map[] && g.inn == map[]
  {
    g := NewDAG();
    for i := 0 to |vs|
      invariant Inv(g)
      invariant g.vertices == set v | v in vs[..i]
      invariant g.out == map[] && g.inn == map[]
    {
      g := AddVertex(g, Some(vs[i])).0;
      assert vs[..i + 1] == vs[..i] + [vs[i]];
    }
    assert vs[..|vs|] == vs;
  }

  /** The leaves and roots of the four vertices 0, 1, 2, 3 with the one edge 1 -> 2. */
  lemma OneEdgeEnds(g: Dag, v0: Vertex, v1: Vertex, v2: Vertex, v3: Vertex)
    requires Inv(g) && g.vertices == {v0, v1, v2, v3}
    requires v0 != v1 && v0 != v2 && v0 != v3 && v1 != v2 && v1 != v3 && v2 != v3
    requires forall a, b :: Edge(g.out, a, b) <==> a == v1 && b == v2
    ensures GetLeafs(g) == {v0, v2, v3} && GetRoots(g) == {v0, v1, v3}
  {
    LeafsHaveNoDescendants(g);
    RootsHaveNoAncestors(g);
    OneEdge(g, v1, v2);
    Childless(g.out, v0);
    Childless(g.out, v3);
    Childless(g.inn, v0);
    Childless(g.inn, v3);
  }

  /** The four vertices 0, 1, 2, 3 with the one edge 1 -> 2. */
  method OneEdgeDag(v0: Vertex, v1: Vertex, v2: Vertex, v3: Vertex) returns (g: Dag)
    requires v0 != v1 && v0 != v2 && v0 != v3 && v1 != v2 && v1 != v3 && v2 != v3
    ensures Inv(g) && g.vertices == {v0, v1, v2, v3}
    ensures forall a, b :: Edge(g.out, a, b) <==> a == v1 && b == v2
  {
    g := Vertices([v0, v1, v2, v3]);
    Childless(g.out, v2);
    g := Extend(g, v1, v2);
  }

  /**
    TestDAG_AddEdge, first step: on the vertices 0, 1, 2, 3 the edge 1 -> 2
    gives 1 has one child, 2 one parent, three leaves, three roots, one
    descendant of 1 and one ancestor of 2.
  */
  method FirstEdgeStep(v0: Vertex, v1: Vertex, v2: Vertex, v3: Vertex) returns (g: Dag, obs: seq<nat>)
    requires v0 != v1 && v0 != v2 && v0 != v3 && v1 != v2 && v1 != v3 && v2 != v3
    ensures Inv(g) && g.vertices == {v0, v1, v2, v3}
    ensures forall a, b :: Edge(g.out, a, b) <==> a == v1 && b == v2
    ensures obs == [1, 1, 3, 3, 1, 1]
  {
    g := OneEdgeDag(v0, v1, v2, v3);
    OneEdge(g, v1, v2);
    OneEdgeEnds(g, v0, v1, v2, v3);
    var children := GetChildren(g, Some(v1)).value;
    var parents := GetParents(g, Some(v2)).value;
    assert children == {v2} && parents == {v1};
    var leaves, roots := |GetLeafs(g)|, |GetRoots(g)|;
    var d1, a2;
    g, d1, a2 := ClosureSizes(g, v1, v2);
    obs := [|children|, |parents|, leaves, roots, d1, a2];
  }

  /** TestDAG_AddEdge, second step: adding 2 -> 3 gives two descendants of 1 and two ancestors of 3. */
  method SecondEdgeStep(g: Dag, v0: Vertex, v1: Vertex, v2: Vertex, v3: Vertex) returns (g': Dag, obs: seq<nat>)
    requires Inv(g) && g.vertices == {v0, v1, v2, v3}
    requires v0 != v1 && v0 != v2 && v0 != v3 && v1 != v2 && v1 != v3 && v2 != v3
    requires forall a, b :: Edge(g.out, a, b) <==> a == v1 && b == v2
    ensures Inv(g') && g'.vertices == {v0, v1, v2, v3}
    ensures forall a, b :: Edge(g'.out, a, b) <==> (a == v1 && b == v2) || (a == v2 && b == v3)
    ensures obs == [2, 2]
  {
    Childless(g.out, v3);
    g' := Extend(g, v2, v3);
    TwoEdges(g', v1, v2, v3);
    var d1, a3;
    g', d1, a3 := ClosureSizes(g', v1, v3);
    obs := [d1, a3];
  }

  /** TestDAG_AddEdge, third step: adding 0 -> 1 gives three descendants of 0 and three ancestors of 3. */
  method ThirdEdgeStep(g: Dag, v0: Vertex, v1: Vertex, v2: Vertex, v3: Vertex) returns (g': Dag, obs: seq<nat>)
    requires Inv(g) && g.vertices == {v0, v1, v2, v3}
    requires v0 != v1 && v0 != v2 && v0 != v3 && v1 != v2 && v1 != v3 && v2 != v3
    requires forall a, b :: Edge(g.out, a, b) <==> (a == v1 && b == v2) || (a == v2 && b == v3)
    ensures Inv(g')
    ensures forall a, b :: Edge(g'.out, a, b) <==>
      (a == v1 && b == v2) || (a == v2 && b == v3) || (a == v0 && b == v1)
    ensures obs == [3, 3]
  {
    TwoEdges(g, v1, v2, v3);
    g' := Extend(g, v0, v1);
    ThreeEdges(g', v0, v1, v2, v3);
    var d0, a3;
    g', d0, a3 := ClosureSizes(g', v0, v3);
    obs := [d0, a3];
  }

  /**
    TestDAG_AddEdge: the chain 0 -> 1 -> 2 -> 3, built edge by edge, with the
    child, parent, leaf, root and closure counts observed after each step.
  */
  method AddEdgeScenario(v0: Vertex, v1: Vertex, v2: Vertex, v3: Vertex) returns (g: Dag, sizes: seq<nat>)
    requires v0 != v1 && v0 != v2 && v0 != v3 && v1 != v2 && v1 != v3 && v2 != v3
    ensures Inv(g)
    ensures forall a, b :: Edge(g.out, a, b) <==>
      (a == v1 && b == v2) || (a == v2 && b == v3) || (a == v0 && b == v1)
    ensures sizes == [1, 1, 3, 3, 1, 1, 2, 2, 3, 3]
  {
    var first, second, third;
    g, first := FirstEdgeStep(v0, v1, v2, v3);
    g, second := SecondEdgeStep(g, v0, v1, v2, v3);
    g, third := ThirdEdgeStep(g, v0, v1, v2, v3);
    sizes := first + second + third;
  }

  /**
    TestDAG_AddEdge, continued on the chain 0 -> 1 -> 2 -> 3: the self-loop
    and the back-edge are refused as loops, the repeated edge as a duplicate.
  */
  method RefusedEdgesScenario(g: Dag, v0: Vertex, v1: Vertex, v2: Vertex, v3: Vertex)
    returns (loopSelf: Option<DagError>, loopBack: Option<DagError>, duplicate: Option<DagError>)
    requires Inv(g)
    requires v0 != v1 && v0 != v2 && v0 != v3 && v1 != v2 && v1 != v3 && v2 != v3
    requires forall a, b :: Edge(g.out, a, b) <==>
      (a == v1 && b == v2) || (a == v2 && b == v3) || (a == v0 && b == v1)
    ensures loopSelf == Some(EdgeLoopError(v1, v1))
    ensures loopBack == Some(EdgeLoopError(v2, v1))
    ensures duplicate == Some(EdgeDuplicateError(v1, v2))
  {
    var g' := g;
    g', loopSelf := AddEdge(g', Some(v1), Some(v1));
    ThreeEdges(g', v0, v1, v2, v3);
    g', loopBack := AddEdge(g', Some(v2), Some(v1));
    g', duplicate := AddEdge(g', Some(v1), Some(v2));
  }

  /**
    TestDAG_DeleteEdge: one edge counts one, deleting it leaves none, and
    deleting it again is refused as an unknown edge.
  */
  method DeleteEdgeScenario(v0: Vertex, v1: Vertex)
    returns (sizes: seq<nat>, again: Option<DagError>)
    requires v0 != v1
    ensures sizes == [1, 0]
    ensures again == Some(EdgeUnknownError(v0, v1))
  {
    var g := NewDAG();
    g := AddVertex(g, Some(v0)).0;
    g := AddVertex(g, Some(v1)).0;
    var err;
    Childless(g.out, v1);
    g, err := AddEdge(g, Some(v0), Some(v1));
    var s1 := GetSize(g);
    g, err := DeleteEdge(g, Some(v0), Some(v1));
    var s0 := GetSize(g);
    sizes := [s1, s0];
    EdgesAreOutboundEdges(g);
    g, again := DeleteEdge(g, Some(v0), Some(v1));
  }

  /** A vertex with exactly two children reaches them and what they reach. */
  lemma ClosureOfTwoChildren(adj: Adjacency, v: Vertex, c1: Vertex, c2: Vertex)
    requires forall b :: Edge(adj, v, b) <==> b == c1 || b == c2
    ensures Closure(adj, v) == {c1, c2} + Closure(adj, c1) + Closure(adj, c2)
  {
    ClosureOfChild(adj, v, c1);
    ClosureOfChild(adj, v, c2);
    forall y | y in Closure(adj, v)
      ensures y in {c1, c2} + Closure(adj, c1) + Closure(adj, c2)
    {
      ClosureThroughChild(adj, v, y);
    }
  }

  /** The descendants in the tree 1 -> 2, 2 -> 3, 2 -> 4. */
  lemma BranchDescendants(g: Dag, v1: Vertex, v2: Vertex, v3: Vertex, v4: Vertex)
    requires v1 != v2 && v1 != v3 && v1 != v4 && v2 != v3 && v2 != v4 && v3 != v4
    requires forall a, b :: Edge(g.out, a, b) <==>
      (a == v1 && b == v2) || (a == v2 && b == v3) || (a == v2 && b == v4)
    ensures Desc(g, v1) == {v2, v3, v4} && Desc(g, v2) == {v3, v4}
    ensures Desc(g, v3) == {} && Desc(g, v4) == {}
  {
    Childless(g.out, v3);
    Childless(g.out, v4);
    ClosureOfTwoChildren(g.out, v2, v3, v4);
    ClosureOfOnlyChild(g.out, v1, v2);
  }

  /** GetDescendants on a known vertex, as its size. */
  method DescendantCount(g: Dag, x: Vertex) returns (g': Dag, n: nat)
    requires Inv(g) && x in g.vertices
    ensures Inv(g') && g'.vertices == g.vertices && g'.out == g.out && g'.inn == g.inn
    ensures n == |Desc(g, x)|
  {
    var r;
    r, g' := GetDescendants(g, Some(x));
    n := |r.value|;
  }

  /** The tree 1 -> 2, 2 -> 3, 2 -> 4 over exactly those vertices. */
  method Branch(v1: Vertex, v2: Vertex, v3: Vertex, v4: Vertex) returns (g: Dag)
    requires v1 != v2 && v1 != v3 && v1 != v4 && v2 != v3 && v2 != v4 && v3 != v4
    ensures Inv(g) && g.vertices == {v1, v2, v3, v4}
    ensures forall a, b :: Edge(g.out, a, b) <==>
      (a == v1 && b == v2) || (a == v2 && b == v3) || (a == v2 && b == v4)
  {
    g := Vertices([v1, v2, v3, v4]);
    Childless(g.out, v2);
    g := Extend(g, v1, v2);
    Childless(g.out, v3);
    g := Extend(g, v2, v3);
    Childless(g.out, v4);
    g := Extend(g, v2, v4);
  }

  /** TestDAG_GetDescendants: the tree 1 -> 2, 2 -> 3, 2 -> 4 has descendant counts 3, 2, 0, 0. */
  method GetDescendantsScenario(v1: Vertex, v2: Vertex, v3: Vertex, v4: Vertex) returns (counts: seq<nat>)
    requires v1 != v2 && v1 != v3 && v1 != v4 && v2 != v3 && v2 != v4 && v3 != v4
    ensures counts == [3, 2, 0, 0]
  {
    var g := Branch(v1, v2, v3, v4);
    BranchDescendants(g, v1, v2, v3, v4);
    var n1, n2, n3, n4;
    g, n1 := DescendantCount(g, v1);
    g, n2 := DescendantCount(g, v2);
    g, n3 := DescendantCount(g, v3);
    g, n4 := DescendantCount(g, v4);
    counts := [n1, n2, n3, n4];
  }

  /** The leaves and roots of the chain 1 -> 2 -> 3, and of what is left once 2 is deleted. */
  lemma ChainEnds(g: Dag, v1: Vertex, v2: Vertex, v3: Vertex)
    requires Inv(g) && g.vertices == {v1, v2, v3} && v1 != v2 && v1 != v3 && v2 != v3
    requires forall a, b :: Edge(g.out, a, b) <==> (a == v1 && b == v2) || (a == v2 && b == v3)
    ensures GetLeafs(g) == {v3} && GetRoots(g) == {v1}
  {
    LeafsHaveNoDescendants(g);
    RootsHaveNoAncestors(g);
    TwoEdges(g, v1, v2, v3);
    Childless(g.out, v3);
    Childless(g.inn, v1);
  }

  lemma NoEdgesEnds(g: Dag)
    requires Inv(g) && forall a, b :: !Edge(g.out, a, b)
    ensures GetLeafs(g) == g.vertices && GetRoots(g) == g.vertices
  {
    LeafsHaveNoDescendants(g);
    RootsHaveNoAncestors(g);
    forall v | v in g.vertices
      ensures Desc(g, v) == {} && Anc(g, v) == {}
    {
      Childless(g.out, v);
      Childless(g.inn, v);
    }
  }

  /** What TestDAG_DeleteVertex reads off a DAG: order, size, leaf and root counts, two closure sizes. */
  method Observe(g: Dag, x: Vertex, y: Vertex) returns (g': Dag, obs: seq<nat>)
    requires Inv(g) && x in g.vertices && y in g.vertices
    ensures Inv(g') && g'.vertices == g.vertices && g'.out == g.out && g'.inn == g.inn
    ensures obs == [GetOrder(g), |Edges(g)|, |GetLeafs(g)|, |GetRoots(g)|, |Desc(g, x)|, |Anc(g, y)|]
  {
    var size := GetSize(g);
    var dx, ay;
    g', dx, ay := ClosureSizes(g, x, y);
    obs := [GetOrder(g), size, |GetLeafs(g)|, |GetRoots(g)|, dx, ay];
  }

  /** The chain 1 -> 2 -> 3 over exactly those vertices. */
  method Chain(v1: Vertex, v2: Vertex, v3: Vertex) returns (g: Dag)
    requires v1 != v2 && v1 != v3 && v2 != v3
    ensures Inv(g) && g.vertices == {v1, v2, v3}
    ensures forall a, b :: Edge(g.out, a, b) <==> (a == v1 && b == v2) || (a == v2 && b == v3)
  {
    g := Vertices([v1, v2, v3]);
    Childless(g.out, v2);
    g := Extend(g, v1, v2);
    Childless(g.out, v3);
    g := Extend(g, v2, v3);
  }

  /** TestDAG_DeleteVertex, before the deletion: the chain 1 -> 2 -> 3 and what the test reads off it. */
  method ChainObserved(v1: Vertex, v2: Vertex, v3: Vertex) returns (g: Dag, obs: seq<nat>)
    requires v1 != v2 && v1 != v3 && v2 != v3
    ensures Inv(g) && g.vertices == {v1, v2, v3}
    ensures forall a, b :: Edge(g.out, a, b) <==> (a == v1 && b == v2) || (a == v2 && b == v3)
    ensures obs == [3, 2, 1, 1, 2, 2]
  {
    g := Chain(v1, v2, v3);
    TwoEdges(g, v1, v2, v3);
    ChainEnds(g, v1, v2, v3);
    EdgesAreOutboundEdges(g);
    assert Edges(g) == {(v1, v2), (v2, v3)};
    g, obs := Observe(g, v1, v3);
  }

  /** TestDAG_DeleteVertex, the deletion: removing 2 from the chain 1 -> 2 -> 3 and what the test reads off the rest. */
  method DeleteMiddle(g: Dag, v1: Vertex, v2: Vertex, v3: Vertex) returns (g': Dag, obs: seq<nat>)
    requires Inv(g) && g.vertices == {v1, v2, v3} && v1 != v2 && v1 != v3 && v2 != v3
    requires forall a, b :: Edge(g.out, a, b) <==> (a == v1 && b == v2) || (a == v2 && b == v3)
    ensures Inv(g') && g'.vertices == {v1, v3}
    ensures obs == [2, 0, 2, 2, 0, 0]
  {
    var err;
    g', err := DeleteVertex(g, Some(v2));
    assert g'.vertices == {v1, v3};
    NoEdgesEnds(g');
    EdgesAreOutboundEdges(g');
    assert Edges(g') == {};
    Childless(g'.out, v1);
    Childless(g'.inn, v3);
    g', obs := Observe(g', v1, v3);
  }

  /**
    TestDAG_DeleteVertex: the chain 1 -> 2 -> 3 has order 3, size 2, one leaf
    and one root; deleting 2 leaves order 2, no edges, two leaves, two roots,
    and no descendants of 1 or ancestors of 3.
  */
  method DeleteVertexScenario(v1: Vertex, v2: Vertex, v3: Vertex) returns (before: seq<nat>, after: seq<nat>)
    requires v1 != v2 && v1 != v3 && v2 != v3
    ensures before == [3, 2, 1, 1, 2, 2]
    ensures after == [2, 0, 2, 2, 0, 0]
  {
    var g;
    g, before := ChainObserved(v1, v2, v3);
    g, after := DeleteMiddle(g, v1, v2, v3);
  }
}
