/**
  The two memoised closure computations of dag.go, run sequentially over one
  adjacency map and its cache. They differ the way the Go code does:
  `AncestorsAux` stores an empty entry for `v` before visiting the
  neighbours and fills it in as it goes, while `DescendantsAux` looks the
  cache up on entry and stores its entry only once complete.

  Iterating a set by repeatedly choosing some member stands for Go's
  unspecified map iteration order.
*/
module Memo {
  import opened Graph

  type Cache = map<Vertex, set<Vertex>>

  /** Every entry of the cache is the true closure of its key. */
  ghost predicate Coherent(adj: Adjacency, cache: Cache) {
    forall k :: k in cache ==> cache[k] == Closure(adj, k)
  }

  /**
    getAncestorsAux (run over the inbound map). The cache may hold partly
    built entries for the vertices whose computation is in progress further
    up the recursion; those are never among the vertices `v` reaches, so
    only the entries `v` reaches need to be correct.
  */
  method AncestorsAux(adj: Adjacency, cache: Cache, v: Vertex) returns (c: Cache)
    requires Acyclic(adj)
    requires v !in cache
    requires forall k :: k in cache && k in Closure(adj, v) ==> cache[k] == Closure(adj, k)
    ensures v in c && c[v] == Closure(adj, v)
    ensures forall k :: k in cache ==> k in c && c[k] == cache[k]
    ensures forall k :: k in c && k !in cache ==> (k == v || k in Closure(adj, v)) && c[k] == Closure(adj, k)
    decreases |Closure(adj, v)|
  {
    c := cache[v := {}];
    var todo := Neighbours(adj, v);
    while todo != {}
      invariant todo <= Neighbours(adj, v)
      invariant v in c && c[v] <= Closure(adj, v)
      invariant forall p :: p in Neighbours(adj, v) - todo ==> p in c[v] && Closure(adj, p) <= c[v]
      invariant forall k :: k in cache ==> k in c && c[k] == cache[k]
      invariant forall k :: k in c && k !in cache && k != v ==> k in Closure(adj, v) && c[k] == Closure(adj, k)
      decreases todo
    {
      var p :| p in todo;
      NeighbourStep(adj, v, p);
      ReadyForParent(adj, cache, c, v, p);
      if p !in c {
        var c' := AncestorsAux(adj, c, p);
        KeptAfterParent(adj, cache, c, c', v, p);
        c := c';
      }
      VisitParent(adj, cache, c, v, p, todo);
      c := c[v := c[v] + c[p] + {p}];
      todo := todo - {p};
    }
    forall y | y in Closure(adj, v)
      ensures y in c[v]
    {
      ClosureThroughChild(adj, v, y);
    }
  }

  /**
    What a visit to neighbour `p` of `v` relies on: `p` and its closure lie in
    the closure of `v`, that closure is strictly larger, and `v` is in neither.
  */
  lemma NeighbourStep(adj: Adjacency, v: Vertex, p: Vertex)
    requires Acyclic(adj) && Edge(adj, v, p)
    ensures p in Closure(adj, v) && Closure(adj, p) <= Closure(adj, v)
    ensures |Closure(adj, p)| < |Closure(adj, v)|
    ensures v !in Closure(adj, p) && v !in Closure(adj, v)
  {
    ChildClosureSmaller(adj, v, p);
    ClosureOfChild(adj, v, p);
    AcyclicNotInOwnClosure(adj, v);
  }

  /**
    Before visiting parent `p`: every cached entry among the ancestors of `p`
    is correct, since those are ancestors of `v` but not `v` itself.
  */
  lemma ReadyForParent(adj: Adjacency, cache: Cache, c: Cache, v: Vertex, p: Vertex)
    requires forall k :: k in cache && k in Closure(adj, v) ==> cache[k] == Closure(adj, k)
    requires forall k :: k in cache ==> k in c && c[k] == cache[k]
    requires forall k :: k in c && k !in cache && k != v ==> k in Closure(adj, v) && c[k] == Closure(adj, k)
    requires Closure(adj, p) <= Closure(adj, v) && v !in Closure(adj, p)
    ensures forall k :: k in c && k in Closure(adj, p) ==> c[k] == Closure(adj, k)
  {
  }

  /**
    After the recursive visit of parent `p`: the entries that were there are
    unchanged and the new ones are correct ancestors of `v`.
  */
  lemma KeptAfterParent(adj: Adjacency, cache: Cache, c: Cache, c': Cache, v: Vertex, p: Vertex)
    requires v in c && v != p
    requires p in Closure(adj, v) && Closure(adj, p) <= Closure(adj, v)
    requires forall k :: k in cache ==> k in c && c[k] == cache[k]
    requires forall k :: k in c && k !in cache && k != v ==> k in Closure(adj, v) && c[k] == Closure(adj, k)
    requires p in c' && c'[p] == Closure(adj, p)
    requires forall k :: k in c ==> k in c' && c'[k] == c[k]
    requires forall k :: k in c' && k !in c ==> (k == p || k in Closure(adj, p)) && c'[k] == Closure(adj, k)
    ensures v in c' && c'[v] == c[v]
    ensures forall k :: k in cache ==> k in c' && c'[k] == cache[k]
    ensures forall k :: k in c' && k !in cache && k != v ==> k in Closure(adj, v) && c'[k] == Closure(adj, k)
  {
  }

  /** Visiting parent `p` adds `p` and its complete entry to the entry of `v`. */
  lemma VisitParent(adj: Adjacency, cache: Cache, c: Cache, v: Vertex, p: Vertex, todo: set<Vertex>)
    requires forall k :: k in cache && k in Closure(adj, v) ==> cache[k] == Closure(adj, k)
    requires v !in cache && v in c && c[v] <= Closure(adj, v)
    requires p in todo && p in c && p != v
    requires p in Closure(adj, v) && Closure(adj, p) <= Closure(adj, v)
    requires forall q :: q in Neighbours(adj, v) - todo ==> q in c[v] && Closure(adj, q) <= c[v]
    requires forall k :: k in cache ==> k in c && c[k] == cache[k]
    requires forall k :: k in c && k !in cache && k != v ==> k in Closure(adj, v) && c[k] == Closure(adj, k)
    ensures c[p] == Closure(adj, p)
    ensures c[v] + c[p] + {p} <= Closure(adj, v)
    ensures forall q :: q in Neighbours(adj, v) - (todo - {p}) ==> q in c[v] + c[p] + {p} && Closure(adj, q) <= c[v] + c[p] + {p}
  {
  }

  /** getDescendantsAux (run over the outbound map), with the cache coherent throughout. */
  method DescendantsAux(adj: Adjacency, cache: Cache, v: Vertex) returns (r: set<Vertex>, c: Cache)
    requires Acyclic(adj)
    requires Coherent(adj, cache)
    ensures r == Closure(adj, v)
    ensures v in c && c[v] == r
    ensures Coherent(adj, c)
    ensures forall k :: k in cache ==> k in c
    ensures forall k :: k in c && k !in cache ==> k == v || k in Closure(adj, v)
    decreases |Closure(adj, v)|
  {
    if v in cache {
      return cache[v], cache;
    }
    c := cache;
    var acc := {};
    var todo := Neighbours(adj, v);
    while todo != {}
      invariant todo <= Neighbours(adj, v)
      invariant acc <= Closure(adj, v)
      invariant forall p :: p in Neighbours(adj, v) - todo ==> p in acc && Closure(adj, p) <= acc
      invariant Coherent(adj, c)
      invariant forall k :: k in cache ==> k in c
      invariant forall k :: k in c && k !in cache ==> k in Closure(adj, v)
      decreases todo
    {
      var child :| child in todo;
      NeighbourStep(adj, v, child);
      if child !in c {
        var _, c' := DescendantsAux(adj, c, child);
        KeptAfterChild(adj, cache, c, c', v, child);
        c := c';
      }
      VisitChild(adj, c, v, child, todo, acc);
      acc := acc + c[child] + {child};
      todo := todo - {child};
    }
    forall y | y in Closure(adj, v)
      ensures y in acc
    {
      ClosureThroughChild(adj, v, y);
    }
    CoherentAdd(adj, c, v, acc);
    c := c[v := acc];
    r := acc;
  }

  /**
    After the recursive visit of `child`: no entry is lost and the new ones
    are descendants of `v`.
  */
  lemma KeptAfterChild(adj: Adjacency, cache: Cache, c: Cache, c': Cache, v: Vertex, child: Vertex)
    requires Closure(adj, child) <= Closure(adj, v) && child in Closure(adj, v)
    requires forall k :: k in cache ==> k in c
    requires forall k :: k in c && k !in cache ==> k in Closure(adj, v)
    requires forall k :: k in c ==> k in c'
    requires forall k :: k in c' && k !in c ==> k == child || k in Closure(adj, child)
    ensures forall k :: k in cache ==> k in c'
    ensures forall k :: k in c' && k !in cache ==> k in Closure(adj, v)
  {
  }

  /** Visiting `child` adds `child` and its complete entry to the accumulated descendants of `v`. */
  lemma VisitChild(adj: Adjacency, c: Cache, v: Vertex, child: Vertex, todo: set<Vertex>, acc: set<Vertex>)
    requires Coherent(adj, c) && child in c && child in todo
    requires child in Closure(adj, v) && Closure(adj, child) <= Closure(adj, v)
    requires acc <= Closure(adj, v)
    requires forall p :: p in Neighbours(adj, v) - todo ==> p in acc && Closure(adj, p) <= acc
    ensures c[child] == Closure(adj, child)
    ensures acc + c[child] + {child} <= Closure(adj, v)
    ensures forall p :: p in Neighbours(adj, v) - (todo - {child}) ==>
      p in acc + c[child] + {child} && Closure(adj, p) <= acc + c[child] + {child}
  {
  }

  lemma CoherentAdd(adj: Adjacency, cache: Cache, v: Vertex, s: set<Vertex>)
    requires Coherent(adj, cache) && s == Closure(adj, v)
    ensures Coherent(adj, cache[v := s])
  {
  }
}
