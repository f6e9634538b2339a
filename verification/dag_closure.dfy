/**
  GetAncestors and GetDescendants (dag.go): argument checks, then the cached
  closure or a memoised computation that warms the cache. The updated DAG is
  returned alongside the answer.
*/
module DagClosure {
  import opened Wrappers
  import opened Graph
  import opened Errors
  import opened Memo
  import opened DagState

  method GetAncestors(g: Dag, v: Option<Vertex>) returns (r: Result<set<Vertex>, DagError>, g': Dag)
    requires Inv(g)
    ensures Inv(g')
    ensures v.None? ==> r == Failure(VertexNilError) && g' == g
    ensures v.Some? && v.value !in g.vertices ==> r == Failure(VertexUnknownError(v.value)) && g' == g
    ensures v.Some? && v.value in g.vertices ==>
      && r == Success(Anc(g, v.value))
      && v.value !in r.value
      && v.value in g'.ancCache
    ensures g' == g.(ancCache := g'.ancCache)
    ensures forall k :: k in g.ancCache ==> k in g'.ancCache
  {
    if v.None? {
      return Failure(VertexNilError), g;
    }
    var x := v.value;
    if x !in g.vertices {
      return Failure(VertexUnknownError(x)), g;
    }
    AcyclicMirror(g.out, g.inn);
    AcyclicNotInOwnClosure(g.inn, x);
    if x in g.ancCache {
      return Success(g.ancCache[x]), g;
    }
    var c := AncestorsAux(g.inn, g.ancCache, x);
    g' := g.(ancCache := c);
    r := Success(c[x]);
  }

  method GetDescendants(g: Dag, v: Option<Vertex>) returns (r: Result<set<Vertex>, DagError>, g': Dag)
    requires Inv(g)
    ensures Inv(g')
    ensures v.None? ==> r == Failure(VertexNilError) && g' == g
    ensures v.Some? && v.value !in g.vertices ==> r == Failure(VertexUnknownError(v.value)) && g' == g
    ensures v.Some? && v.value in g.vertices ==>
      && r == Success(Desc(g, v.value))
      && v.value !in r.value
      && v.value in g'.descCache
    ensures g' == g.(descCache := g'.descCache)
    ensures forall k :: k in g.descCache ==> k in g'.descCache
  {
    if v.None? {
      return Failure(VertexNilError), g;
    }
    var x := v.value;
    if x !in g.vertices {
      return Failure(VertexUnknownError(x)), g;
    }
    AcyclicNotInOwnClosure(g.out, x);
    var d, c := DescendantsAux(g.out, g.descCache, x);
    g' := g.(descCache := c);
    r := Success(d);
  }
}
