/**
  The mutating operations of dag.go. Each checks its arguments, reads the
  closures it needs under the old topology (warming the caches), changes the
  adjacency maps, and drops the cache entries the change can make stale.
*/
module DagMutation {
  import opened Wrappers
  import opened Graph
  import opened Errors
  import opened Memo
  import opened DagState
  import opened DagClosure

  /** Adds `b` to the neighbour set of `a`, creating that set when missing. */
  function Insert(adj: Adjacency, a: Vertex, b: Vertex): (r: Adjacency)
    ensures forall s, t :: Edge(r, s, t) <==> Edge(adj, s, t) || (s == a && t == b)
  {
    adj[a := Neighbours(adj, a) + {b}]
  }

  /** Removes `b` from the neighbour set of `a`, when `a` has one. */
  function Remove(adj: Adjacency, a: Vertex, b: Vertex): (r: Adjacency)
    ensures forall s, t :: Edge(r, s, t) <==> Edge(adj, s, t) && !(s == a && t == b)
  {
    if a in adj then adj[a := adj[a] - {b}] else adj
  }

  /** Removes `v` from the neighbour sets of the `keys`, then drops the entry of `v` itself. */
  function Strip(adj: Adjacency, keys: set<Vertex>, v: Vertex): (r: Adjacency)
    ensures forall s, t :: Edge(r, s, t) <==> Edge(adj, s, t) && s != v && !(s in keys && t == v)
    ensures r.Keys == adj.Keys - {v}
  {
    (map k | k in adj :: if k in keys then adj[k] - {v} else adj[k]) - {v}
  }

  /** AddVertex: refuses nil and known vertices; otherwise only the vertex set grows. */
  function AddVertex(g: Dag, v: Option<Vertex>): (r: (Dag, Option<DagError>))
    ensures v.None? ==> r == (g, Some(VertexNilError))
    ensures v.Some? && v.value in g.vertices ==> r == (g, Some(VertexDuplicateError(v.value)))
    ensures v.Some? && v.value !in g.vertices ==>
      && r.1 == None
      && r.0.vertices == g.vertices + {v.value}
      && GetOrder(r.0) == GetOrder(g) + 1
      && r.0.out == g.out && r.0.inn == g.inn
      && r.0.ancCache == g.ancCache && r.0.descCache == g.descCache
    ensures Inv(g) ==> Inv(r.0)
  {
    if v.None? then (g, Some(VertexNilError))
    else if v.value in g.vertices then (g, Some(VertexDuplicateError(v.value)))
    else (g.(vertices := g.vertices + {v.value}), None)
  }

  /**
    The part of AddEdge after its checks: record `src -> dst` in both maps,
    drop the cached ancestors of `dst` and of its old descendants, and the
    cached descendants of `src` and of its old ancestors.
  */
  function Link(g: Dag, src: Vertex, dst: Vertex, descendants: set<Vertex>, ancestors: set<Vertex>): (r: Dag)
    requires Inv(g) && src in g.vertices && dst in g.vertices
    requires descendants == Desc(g, dst) && ancestors == Anc(g, src)
    requires src != dst && src !in descendants
    ensures Inv(r)
    ensures r.vertices == g.vertices
    ensures forall a, b :: Edge(r.out, a, b) <==> Edge(g.out, a, b) || (a == src && b == dst)
    ensures forall k :: k in r.ancCache <==> k in g.ancCache && k != dst && k !in descendants
    ensures forall k :: k in r.descCache <==> k in g.descCache && k != src && k !in ancestors
  {
    var r := Dag(g.vertices, Insert(g.out, src, dst), Insert(g.inn, dst, src),
                 g.ancCache - (descendants + {dst}), g.descCache - (ancestors + {src}));
    LinkKeepsInv(g, src, dst, r);
    r
  }

  lemma LinkKeepsInv(g: Dag, src: Vertex, dst: Vertex, r: Dag)
    requires Inv(g) && src in g.vertices && dst in g.vertices
    requires src != dst && src !in Desc(g, dst)
    requires r.vertices == g.vertices
    requires r.out == Insert(g.out, src, dst) && r.inn == Insert(g.inn, dst, src)
    requires forall k :: k in r.ancCache ==> k in g.ancCache && r.ancCache[k] == g.ancCache[k] && k != dst && k !in Desc(g, dst)
    requires forall k :: k in r.descCache ==> k in g.descCache && r.descCache[k] == g.descCache[k] && k != src && k !in Anc(g, src)
    ensures Inv(r)
  {
    InClosure(g.out, dst, src);
    AcyclicAfterAdding(g.out, r.out, src, dst);
    MirrorSymmetric(g.out, g.inn);
    forall k | k in r.ancCache
      ensures r.ancCache[k] == Closure(r.inn, k)
    {
      if Reaches(g.inn, k, dst) {
        ReachesReversed(g.out, g.inn, k, dst);
        InClosure(g.out, dst, k);
      }
      ClosureUnchangedFrom(g.inn, r.inn, dst, k);
    }
    forall k | k in r.descCache
      ensures r.descCache[k] == Closure(r.out, k)
    {
      if Reaches(g.out, k, src) {
        ReachesReversed(g.inn, g.out, k, src);
        InClosure(g.inn, src, k);
      }
      ClosureUnchangedFrom(g.out, r.out, src, k);
    }
  }

  /**
    The part of DeleteEdge after its checks: remove `src -> dst` from both
    maps, drop the cached ancestors of `src` and of its old descendants, and
    the cached descendants of `dst` and of its old ancestors.
  */
  function Unlink(g: Dag, src: Vertex, dst: Vertex, descendants: set<Vertex>, ancestors: set<Vertex>): (r: Dag)
    requires Inv(g) && Linked(g, src, dst)
    requires descendants == Desc(g, src) && ancestors == Anc(g, dst)
    ensures Inv(r)
    ensures r.vertices == g.vertices
    ensures forall a, b :: Edge(r.out, a, b) <==> Edge(g.out, a, b) && !(a == src && b == dst)
    ensures forall k :: k in r.ancCache <==> k in g.ancCache && k != src && k !in descendants
    ensures forall k :: k in r.descCache <==> k in g.descCache && k != dst && k !in ancestors
  {
    var r := Dag(g.vertices, Remove(g.out, src, dst), Remove(g.inn, dst, src),
                 g.ancCache - (descendants + {src}), g.descCache - (ancestors + {dst}));
    UnlinkKeepsInv(g, src, dst, r);
    r
  }

  lemma UnlinkKeepsInv(g: Dag, src: Vertex, dst: Vertex, r: Dag)
    requires Inv(g) && Linked(g, src, dst)
    requires r.vertices == g.vertices
    requires r.out == Remove(g.out, src, dst) && r.inn == Remove(g.inn, dst, src)
    requires forall k :: k in r.ancCache ==> k in g.ancCache && r.ancCache[k] == g.ancCache[k] && k != src && k !in Desc(g, src)
    requires forall k :: k in r.descCache ==> k in g.descCache && r.descCache[k] == g.descCache[k] && k != dst && k !in Anc(g, dst)
    ensures Inv(r)
  {
    AcyclicSubGraph(r.out, g.out);
    MirrorSymmetric(g.out, g.inn);
    forall k | k in r.ancCache
      ensures r.ancCache[k] == Closure(r.inn, k)
    {
      InClosure(g.out, src, dst);
      ReachesEdge(g.out, src, dst);
      if Reaches(r.inn, k, dst) {
        ReachesInSuperGraph(r.inn, g.inn, k, dst);
        ReachesReversed(g.out, g.inn, k, dst);
        ReachesPrepend(g.out, src, dst, k);
        InClosure(g.out, src, k);
      }
      ClosureUnchangedFrom(r.inn, g.inn, dst, k);
    }
    forall k | k in r.descCache
      ensures r.descCache[k] == Closure(r.out, k)
    {
      InClosure(g.inn, dst, src);
      ReachesEdge(g.inn, dst, src);
      if Reaches(r.out, k, src) {
        ReachesInSuperGraph(r.out, g.out, k, src);
        ReachesReversed(g.inn, g.out, k, src);
        ReachesPrepend(g.inn, dst, src, k);
        InClosure(g.inn, dst, k);
      }
      ClosureUnchangedFrom(r.out, g.out, src, k);
    }
  }

  /**
    The part of DeleteVertex after its checks: remove `v` from the children
    sets of its parents and the parent sets of its children, drop its own
    entries, drop the cached ancestors of `v` and its old descendants and the
    cached descendants of `v` and its old ancestors, and forget `v`.
  */
  function Detach(g: Dag, v: Vertex, descendants: set<Vertex>, ancestors: set<Vertex>): (r: Dag)
    requires Inv(g) && v in g.vertices
    requires descendants == Desc(g, v) && ancestors == Anc(g, v)
    ensures Inv(r)
    ensures r.vertices == g.vertices - {v}
    ensures forall a, b :: Edge(r.out, a, b) <==> Edge(g.out, a, b) && a != v && b != v
    ensures forall k :: k in r.ancCache <==> k in g.ancCache && k != v && k !in descendants
    ensures forall k :: k in r.descCache <==> k in g.descCache && k != v && k !in ancestors
  {
    var r := Dag(g.vertices - {v},
                 Strip(g.out, Neighbours(g.inn, v), v), Strip(g.inn, Neighbours(g.out, v), v),
                 g.ancCache - (descendants + {v}), g.descCache - (ancestors + {v}));
    DetachKeepsInv(g, v, r);
    r
  }

  lemma DetachKeepsInv(g: Dag, v: Vertex, r: Dag)
    requires Inv(g) && v in g.vertices
    requires r.vertices == g.vertices - {v}
    requires r.out == Strip(g.out, Neighbours(g.inn, v), v) && r.inn == Strip(g.inn, Neighbours(g.out, v), v)
    requires forall k :: k in r.ancCache ==> k in g.ancCache && r.ancCache[k] == g.ancCache[k] && k != v && k !in Desc(g, v)
    requires forall k :: k in r.descCache ==> k in g.descCache && r.descCache[k] == g.descCache[k] && k != v && k !in Anc(g, v)
    ensures Inv(r)
    ensures forall a, b :: Edge(r.out, a, b) <==> Edge(g.out, a, b) && a != v && b != v
  {
    assert forall a, b :: Edge(r.out, a, b) <==> Edge(g.out, a, b) && a != v && b != v;
    assert forall a, b :: Edge(r.inn, a, b) <==> Edge(g.inn, a, b) && a != v && b != v;
    AcyclicSubGraph(r.out, g.out);
    forall k | k in r.ancCache
      ensures r.ancCache[k] == Closure(r.inn, k)
    {
      if Reaches(g.inn, k, v) {
        ReachesReversed(g.out, g.inn, k, v);
        InClosure(g.out, v, k);
      }
      ClosureUnchangedTouching(r.inn, g.inn, v, k);
    }
    forall k | k in r.descCache
      ensures r.descCache[k] == Closure(r.out, k)
    {
      MirrorSymmetric(g.out, g.inn);
      if Reaches(g.out, k, v) {
        ReachesReversed(g.inn, g.out, k, v);
        InClosure(g.inn, v, k);
      }
      ClosureUnchangedTouching(r.out, g.out, v, k);
    }
  }

  /**
    AddEdge: refuses nil endpoints; adds both endpoints to the vertex set;
    refuses a known edge; warms the descendant cache at `dst` and the ancestor
    cache at `src`; refuses an edge that would close a cycle; otherwise links.
  */
  method AddEdge(g: Dag, src: Option<Vertex>, dst: Option<Vertex>) returns (g': Dag, err: Option<DagError>)
    requires Inv(g)
    ensures Inv(g')
    ensures src.None? || dst.None? ==> g' == g && err == Some(VertexNilError)
    ensures src.Some? && dst.Some? ==> g'.vertices == g.vertices + {src.value, dst.value}
    ensures src.Some? && dst.Some? && Edge(g.out, src.value, dst.value) ==>
      && err == Some(EdgeDuplicateError(src.value, dst.value))
      && g' == g.(vertices := g'.vertices)
    ensures src.Some? && dst.Some? && !Edge(g.out, src.value, dst.value)
              && (src.value == dst.value || src.value in Desc(g, dst.value)) ==>
      && err == Some(EdgeLoopError(src.value, dst.value))
      && g'.out == g.out && g'.inn == g.inn
    ensures err.None? <==>
      && src.Some? && dst.Some?
      && !Edge(g.out, src.value, dst.value)
      && src.value != dst.value && src.value !in Desc(g, dst.value)
    ensures err.None? ==>
      && Edges(g') == Edges(g) + {(src.value, dst.value)}
      && |Edges(g')| == |Edges(g)| + 1
    ensures err.None? ==>
      && (forall k :: k in g'.ancCache ==> k != dst.value && k !in Desc(g, dst.value))
      && (forall k :: k in g'.descCache ==> k != src.value && k !in Anc(g, src.value))
      && (forall k :: k in g.ancCache && k != dst.value && k !in Desc(g, dst.value) ==> k in g'.ancCache)
      && (forall k :: k in g.descCache && k != src.value && k !in Anc(g, src.value) ==> k in g'.descCache)
  {
    if src.None? || dst.None? {
      return g, Some(VertexNilError);
    }
    var s, d := src.value, dst.value;
    var g1 := g.(vertices := g.vertices + {s, d});
    GrowKeepsInv(g, g1);
    MirrorSymmetric(g.out, g.inn);
    if Linked(g1, s, d) {
      return g1, Some(EdgeDuplicateError(s, d));
    }
    var descendants, g2 := GetDescendants(g1, Some(d));
    var ancestors, g3 := GetAncestors(g2, Some(s));
    assert g3.out == g.out && g3.inn == g.inn && g3.vertices == g1.vertices;
    assert descendants.value == Desc(g, d) && ancestors.value == Anc(g, s);
    if s == d || s in descendants.value {
      return g3, Some(EdgeLoopError(s, d));
    }
    g' := Link(g3, s, d, descendants.value, ancestors.value);
    err := None;
    LinkCounts(g, g', s, d);
  }

  /** Growing the vertex set alone keeps the invariant. */
  lemma GrowKeepsInv(g: Dag, g1: Dag)
    requires Inv(g) && g1 == g.(vertices := g1.vertices) && g.vertices <= g1.vertices
    ensures Inv(g1)
  {
  }

  /** Adding one new edge grows the edge set by exactly that edge. */
  lemma LinkCounts(g: Dag, r: Dag, src: Vertex, dst: Vertex)
    requires !Edge(g.out, src, dst)
    requires forall a, b :: Edge(r.out, a, b) <==> Edge(g.out, a, b) || (a == src && b == dst)
    ensures Edges(r) == Edges(g) + {(src, dst)}
    ensures |Edges(r)| == |Edges(g)| + 1
  {
    EdgesAreOutboundEdges(g);
    EdgesAreOutboundEdges(r);
    assert Edges(r) == Edges(g) + {(src, dst)};
  }

  /** Removing one existing edge shrinks the edge set by exactly that edge. */
  lemma UnlinkCounts(g: Dag, r: Dag, src: Vertex, dst: Vertex)
    requires Edge(g.out, src, dst)
    requires forall a, b :: Edge(r.out, a, b) <==> Edge(g.out, a, b) && !(a == src && b == dst)
    ensures Edges(r) == Edges(g) - {(src, dst)}
    ensures |Edges(r)| == |Edges(g)| - 1
  {
    EdgesAreOutboundEdges(g);
    EdgesAreOutboundEdges(r);
    assert Edges(r) == Edges(g) - {(src, dst)};
  }

  /**
    DeleteEdge: refuses nil endpoints, unknown endpoints (source first) and an
    absent edge, changing nothing; otherwise warms the descendant cache at
    `src` and the ancestor cache at `dst`, then unlinks.
  */
  method DeleteEdge(g: Dag, src: Option<Vertex>, dst: Option<Vertex>) returns (g': Dag, err: Option<DagError>)
    requires Inv(g)
    ensures Inv(g')
    ensures src.None? || dst.None? ==> g' == g && err == Some(VertexNilError)
    ensures src.Some? && dst.Some? && src.value !in g.vertices ==>
      g' == g && err == Some(VertexUnknownError(src.value))
    ensures src.Some? && dst.Some? && src.value in g.vertices && dst.value !in g.vertices ==>
      g' == g && err == Some(VertexUnknownError(dst.value))
    ensures src.Some? && dst.Some? && src.value in g.vertices && dst.value in g.vertices
              && !Edge(g.out, src.value, dst.value) ==>
      g' == g && err == Some(EdgeUnknownError(src.value, dst.value))
    ensures err.None? <==> src.Some? && dst.Some? && Edge(g.out, src.value, dst.value)
    ensures err.None? ==>
      && g'.vertices == g.vertices
      && Edges(g') == Edges(g) - {(src.value, dst.value)}
      && |Edges(g')| == |Edges(g)| - 1
    ensures err.None? ==>
      && (forall k :: k in g'.ancCache ==> k != src.value && k !in Desc(g, src.value))
      && (forall k :: k in g'.descCache ==> k != dst.value && k !in Anc(g, dst.value))
      && (forall k :: k in g.ancCache && k != src.value && k !in Desc(g, src.value) ==> k in g'.ancCache)
      && (forall k :: k in g.descCache && k != dst.value && k !in Anc(g, dst.value) ==> k in g'.descCache)
  {
    if src.None? || dst.None? {
      return g, Some(VertexNilError);
    }
    var s, d := src.value, dst.value;
    if s !in g.vertices {
      return g, Some(VertexUnknownError(s));
    }
    if d !in g.vertices {
      return g, Some(VertexUnknownError(d));
    }
    if !Linked(g, s, d) {
      return g, Some(EdgeUnknownError(s, d));
    }
    var descendants, g1 := GetDescendants(g, Some(s));
    var ancestors, g2 := GetAncestors(g1, Some(d));
    g' := Unlink(g2, s, d, descendants.value, ancestors.value);
    err := None;
    UnlinkCounts(g, g', s, d);
  }

  /**
    DeleteVertex: refuses nil and unknown vertices, changing nothing;
    otherwise warms both caches at `v`, then detaches and forgets `v`.
  */
  method DeleteVertex(g: Dag, v: Option<Vertex>) returns (g': Dag, err: Option<DagError>)
    requires Inv(g)
    ensures Inv(g')
    ensures v.None? ==> g' == g && err == Some(VertexNilError)
    ensures v.Some? && v.value !in g.vertices ==> g' == g && err == Some(VertexUnknownError(v.value))
    ensures err.None? <==> v.Some? && v.value in g.vertices
    ensures err.None? ==>
      && g'.vertices == g.vertices - {v.value}
      && GetOrder(g') == GetOrder(g) - 1
      && (forall a, b :: Edge(g'.out, a, b) <==> Edge(g.out, a, b) && a != v.value && b != v.value)
    ensures err.None? ==>
      && (forall k :: k in g'.ancCache ==> k != v.value && k !in Desc(g, v.value))
      && (forall k :: k in g'.descCache ==> k != v.value && k !in Anc(g, v.value))
      && (forall k :: k in g.ancCache && k != v.value && k !in Desc(g, v.value) ==> k in g'.ancCache)
      && (forall k :: k in g.descCache && k != v.value && k !in Anc(g, v.value) ==> k in g'.descCache)
  {
    if v.None? {
      return g, Some(VertexNilError);
    }
    var x := v.value;
    if x !in g.vertices {
      return g, Some(VertexUnknownError(x));
    }
    var descendants, g1 := GetDescendants(g, Some(x));
    var ancestors, g2 := GetAncestors(g1, Some(x));
    g' := Detach(g2, x, descendants.value, ancestors.value);
    err := None;
  }
}
