/**
  The state of a DAG (dag.go) without its locks, its invariant, and the
  queries that read the state without touching the closure caches.
*/
module DagState {
  import opened Wrappers
  import opened Graph
  import opened Errors
  import opened Memo

  /**
    The vertex set, the outbound map (`out`: vertex to children), the inbound
    map (`inn`: vertex to parents) and the memoised ancestor and descendant
    sets. Go's `map[Vertex]bool` sets hold only `true` values, so they are sets
    here; the vertex-lock pool is left out.
  */
  datatype Dag = Dag(
    vertices: set<Vertex>,
    out: Adjacency,
    inn: Adjacency,
    ancCache: Cache,
    descCache: Cache)

  /** All vertices reachable from `v` through outbound edges. */
  ghost function Desc(g: Dag, v: Vertex): set<Vertex> {
    Closure(g.out, v)
  }

  /** All vertices reachable from `v` through inbound edges. */
  ghost function Anc(g: Dag, v: Vertex): set<Vertex> {
    Closure(g.inn, v)
  }

  /** Both adjacency maps mention only known vertices. */
  ghost predicate Closed(g: Dag) {
    && g.out.Keys <= g.vertices
    && g.inn.Keys <= g.vertices
    && (forall a, b :: Edge(g.out, a, b) ==> b in g.vertices)
    && (forall a, b :: Edge(g.inn, a, b) ==> b in g.vertices)
  }

  /**
    What every operation keeps: the maps mirror each other, the edges form no
    cycle, and every cache entry present is the true closure of its key.
  */
  ghost predicate Inv(g: Dag) {
    && Closed(g)
    && Mirror(g.out, g.inn)
    && Acyclic(g.out)
    && Coherent(g.inn, g.ancCache)
    && Coherent(g.out, g.descCache)
  }

  /** The edge test of the Go code: the edge is recorded in both maps. */
  predicate Linked(g: Dag, src: Vertex, dst: Vertex) {
    Edge(g.out, src, dst) && Edge(g.inn, dst, src)
  }

  /** The edges, read from the outbound map. */
  function Edges(g: Dag): set<(Vertex, Vertex)> {
    EdgesFrom(g.out, g.out.Keys)
  }

  lemma EdgesAreOutboundEdges(g: Dag)
    ensures forall a, b :: (a, b) in Edges(g) <==> Edge(g.out, a, b)
  {
  }

  function EdgesFrom(out: Adjacency, keys: set<Vertex>): set<(Vertex, Vertex)> {
    set a, b | a in keys && a in out && b in out[a] :: (a, b)
  }

  lemma EmptyIsAcyclic()
    ensures Acyclic(map[])
  {
  }

  /** NewDAG: no vertices, no edges, empty adjacency maps and empty caches. */
  function NewDAG(): (g: Dag)
    ensures Inv(g)
    ensures GetOrder(g) == 0 && |Edges(g)| == 0
    ensures g.out == map[] && g.inn == map[] && g.ancCache == map[] && g.descCache == map[]
  {
    EmptyIsAcyclic();
    Dag({}, map[], map[], map[], map[])
  }

  function GetOrder(g: Dag): nat {
    |g.vertices|
  }

  /** GetSize: sums the sizes of the outbound sets, which counts the edges. */
  method GetSize(g: Dag) returns (count: nat)
    ensures count == |Edges(g)|
  {
    count := 0;
    var todo := g.out.Keys;
    while todo != {}
      invariant todo <= g.out.Keys
      invariant count == |EdgesFrom(g.out, g.out.Keys - todo)|
      decreases todo
    {
      var k :| k in todo;
      var done := g.out.Keys - todo;
      var fromK := set b | b in g.out[k] :: (k, b);
      assert EdgesFrom(g.out, done + {k}) == EdgesFrom(g.out, done) + fromK;
      assert EdgesFrom(g.out, done) !! fromK;
      PairsCount(k, g.out[k]);
      count := count + |g.out[k]|;
      todo := todo - {k};
      assert g.out.Keys - todo == done + {k};
    }
    assert g.out.Keys - todo == g.out.Keys;
  }

  lemma {:induction false} PairsCount(a: Vertex, s: set<Vertex>)
    ensures |set b | b in s :: (a, b)| == |s|
    decreases s
  {
    if s != {} {
      var x :| x in s;
      PairsCount(a, s - {x});
      assert (set b | b in s :: (a, b)) == (set b | b in s - {x} :: (a, b)) + {(a, x)};
    }
  }

  /** GetLeafs: vertices whose outbound set is missing or empty. */
  function GetLeafs(g: Dag): set<Vertex> {
    set v | v in g.vertices && (v !in g.out || |g.out[v]| == 0)
  }

  /** GetRoots: vertices whose inbound set is missing or empty. */
  function GetRoots(g: Dag): set<Vertex> {
    set v | v in g.vertices && (v !in g.inn || |g.inn[v]| == 0)
  }

  /** GetChildren: the outbound set of a known vertex, empty when it has none. */
  function GetChildren(g: Dag, v: Option<Vertex>): (r: Result<set<Vertex>, DagError>)
    ensures v.None? ==> r == Failure(VertexNilError)
    ensures v.Some? && v.value !in g.vertices ==> r == Failure(VertexUnknownError(v.value))
    ensures v.Some? && v.value in g.vertices ==>
      r.Success? && forall w :: w in r.value <==> Edge(g.out, v.value, w)
  {
    if v.None? then Failure(VertexNilError)
    else if v.value !in g.vertices then Failure(VertexUnknownError(v.value))
    else Success(Neighbours(g.out, v.value))
  }

  /** GetParents: the inbound set of a known vertex, empty when it has none. */
  function GetParents(g: Dag, v: Option<Vertex>): (r: Result<set<Vertex>, DagError>)
    ensures v.None? ==> r == Failure(VertexNilError)
    ensures v.Some? && v.value !in g.vertices ==> r == Failure(VertexUnknownError(v.value))
    ensures v.Some? && v.value in g.vertices ==>
      r.Success? && forall w :: w in r.value <==> Edge(g.inn, v.value, w)
  {
    if v.None? then Failure(VertexNilError)
    else if v.value !in g.vertices then Failure(VertexUnknownError(v.value))
    else Success(Neighbours(g.inn, v.value))
  }

  /**
    Children and parents agree: `w` is among the children of `v` exactly when
    `v` is among the parents of `w`, and both mean the edge `v -> w`.
  */
  lemma ChildrenParentsAgree(g: Dag, v: Vertex, w: Vertex)
    requires Inv(g) && v in g.vertices && w in g.vertices
    ensures w in GetChildren(g, Some(v)).value <==> Edge(g.out, v, w)
    ensures v in GetParents(g, Some(w)).value <==> Edge(g.out, v, w)
  {
  }

  /** A leaf is exactly a known vertex with no descendants. */
  lemma LeafsHaveNoDescendants(g: Dag)
    requires Inv(g)
    ensures forall v :: v in GetLeafs(g) <==> v in g.vertices && Desc(g, v) == {}
  {
    forall v | v in g.vertices
      ensures v in GetLeafs(g) <==> Desc(g, v) == {}
    {
      EmptyClosureIffNoNeighbours(g.out, v);
    }
  }

  /** A root is exactly a known vertex with no ancestors, which no edge enters. */
  lemma RootsHaveNoAncestors(g: Dag)
    requires Inv(g)
    ensures forall v :: v in GetRoots(g) <==> v in g.vertices && Anc(g, v) == {}
    ensures forall v, u :: v in GetRoots(g) ==> !Edge(g.out, u, v)
  {
    forall v | v in g.vertices
      ensures v in GetRoots(g) <==> Anc(g, v) == {}
    {
      EmptyClosureIffNoNeighbours(g.inn, v);
    }
  }
}
