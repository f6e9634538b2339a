/**
  Reachability over an adjacency map. This is the specification every closure
  the DAG computes or caches is held to: `Closure(adj, v)` is the set of
  vertices reachable from `v` through one or more edges of `adj`.

  The DAG keeps two adjacency maps, one outbound (children) and one inbound
  (parents); the same definitions serve both, and `Mirror` relates them.
*/
module Graph {

  /** A vertex: an opaque value compared by equality, like the map keys of the Go code. */
  type Vertex(==, !new)

  /** Each key's set of neighbours: its children (outbound) or its parents (inbound). */
  type Adjacency = map<Vertex, set<Vertex>>

  predicate Edge(adj: Adjacency, a: Vertex, b: Vertex) {
    a in adj && b in adj[a]
  }

  /** The neighbour set of `v`, empty when `v` has no entry. */
  function Neighbours(adj: Adjacency, v: Vertex): (r: set<Vertex>)
    ensures forall b :: b in r <==> Edge(adj, v, b)
  {
    if v in adj then adj[v] else {}
  }

  /** Every vertex some edge points to. */
  function Targets(adj: Adjacency): set<Vertex> {
    set a, b | a in adj && b in adj[a] :: b
  }

  /** `p` lists, in order, the vertices met when following edges from `x`. */
  ghost predicate IsWalk(adj: Adjacency, x: Vertex, p: seq<Vertex>)
    decreases |p|
  {
    |p| == 0 || (Edge(adj, x, p[0]) && IsWalk(adj, p[0], p[1..]))
  }

  /** `y` is reachable from `x` through one or more edges. */
  ghost predicate Reaches(adj: Adjacency, x: Vertex, y: Vertex) {
    exists p :: |p| > 0 && IsWalk(adj, x, p) && p[|p| - 1] == y
  }

  /** The transitive closure of `v`: all vertices reachable from it. */
  ghost function Closure(adj: Adjacency, v: Vertex): set<Vertex> {
    set y | y in Targets(adj) && Reaches(adj, v, y)
  }

  ghost predicate Acyclic(adj: Adjacency) {
    forall v :: !Reaches(adj, v, v)
  }

  /** Every edge of `small` is an edge of `big`. */
  ghost predicate SubGraph(small: Adjacency, big: Adjacency) {
    forall a, b :: Edge(small, a, b) ==> Edge(big, a, b)
  }

  /** `out` and `inn` hold the same edges, `inn` with every edge reversed. */
  ghost predicate Mirror(out: Adjacency, inn: Adjacency) {
    forall a, b :: Edge(out, a, b) <==> Edge(inn, b, a)
  }

  lemma ReachesEdge(adj: Adjacency, x: Vertex, y: Vertex)
    requires Edge(adj, x, y)
    ensures Reaches(adj, x, y)
  {
    var p := [y];
    assert p[1..] == [];
    assert IsWalk(adj, x, p);
  }

  lemma ReachesPrepend(adj: Adjacency, x: Vertex, y: Vertex, z: Vertex)
    requires Edge(adj, x, y) && Reaches(adj, y, z)
    ensures Reaches(adj, x, z)
  {
    var p :| |p| > 0 && IsWalk(adj, y, p) && p[|p| - 1] == z;
    var q := [y] + p;
    assert q[1..] == p;
    assert IsWalk(adj, x, q);
  }

  /** Splits a reaching walk after its first edge. */
  lemma ReachesFirstStep(adj: Adjacency, x: Vertex, z: Vertex)
    requires Reaches(adj, x, z)
    ensures exists y :: Edge(adj, x, y) && (y == z || Reaches(adj, y, z))
  {
    var p :| |p| > 0 && IsWalk(adj, x, p) && p[|p| - 1] == z;
    if |p| > 1 {
      var q := p[1..];
      assert q[|q| - 1] == z;
      assert Reaches(adj, p[0], z);
    }
  }

  lemma {:induction false} WalkThenReaches(adj: Adjacency, x: Vertex, p: seq<Vertex>, z: Vertex)
    requires |p| > 0 && IsWalk(adj, x, p) && Reaches(adj, p[|p| - 1], z)
    ensures Reaches(adj, x, z)
    decreases |p|
  {
    if |p| > 1 {
      var q := p[1..];
      assert q[|q| - 1] == p[|p| - 1];
      WalkThenReaches(adj, p[0], q, z);
    }
    ReachesPrepend(adj, x, p[0], z);
  }

  lemma ReachesTransitive(adj: Adjacency, x: Vertex, y: Vertex, z: Vertex)
    requires Reaches(adj, x, y) && Reaches(adj, y, z)
    ensures Reaches(adj, x, z)
  {
    var p :| |p| > 0 && IsWalk(adj, x, p) && p[|p| - 1] == y;
    WalkThenReaches(adj, x, p, z);
  }

  lemma {:induction false} WalkEndsAtTarget(adj: Adjacency, x: Vertex, p: seq<Vertex>)
    requires |p| > 0 && IsWalk(adj, x, p)
    ensures p[|p| - 1] in Targets(adj)
    decreases |p|
  {
    if |p| == 1 {
      assert x in adj && p[0] in adj[x];
    } else {
      var q := p[1..];
      WalkEndsAtTarget(adj, p[0], q);
      assert q[|q| - 1] == p[|p| - 1];
    }
  }

  /** Membership in a closure is exactly reachability. */
  lemma InClosure(adj: Adjacency, v: Vertex, y: Vertex)
    ensures y in Closure(adj, v) <==> Reaches(adj, v, y)
  {
    if Reaches(adj, v, y) {
      var p :| |p| > 0 && IsWalk(adj, v, p) && p[|p| - 1] == y;
      WalkEndsAtTarget(adj, v, p);
    }
  }

  lemma ClosureOfChild(adj: Adjacency, v: Vertex, c: Vertex)
    requires Edge(adj, v, c)
    ensures c in Closure(adj, v)
    ensures Closure(adj, c) <= Closure(adj, v)
  {
    ReachesEdge(adj, v, c);
    InClosure(adj, v, c);
    forall y | y in Closure(adj, c)
      ensures y in Closure(adj, v)
    {
      InClosure(adj, c, y);
      ReachesPrepend(adj, v, c, y);
      InClosure(adj, v, y);
    }
  }

  /** Everything reachable from `v` is a child of `v` or reachable from one. */
  lemma ClosureThroughChild(adj: Adjacency, v: Vertex, y: Vertex)
    requires y in Closure(adj, v)
    ensures exists c :: Edge(adj, v, c) && (y == c || y in Closure(adj, c))
  {
    InClosure(adj, v, y);
    ReachesFirstStep(adj, v, y);
    var c :| Edge(adj, v, c) && (c == y || Reaches(adj, c, y));
    InClosure(adj, c, y);
  }

  lemma AcyclicNotInOwnClosure(adj: Adjacency, v: Vertex)
    requires Acyclic(adj)
    ensures v !in Closure(adj, v)
  {
    InClosure(adj, v, v);
  }

  /** A child's closure omits the parent, so it is strictly smaller. */
  lemma ChildClosureSmaller(adj: Adjacency, v: Vertex, c: Vertex)
    requires Acyclic(adj) && Edge(adj, v, c)
    ensures v !in Closure(adj, c)
    ensures Closure(adj, c) < Closure(adj, v)
    ensures |Closure(adj, c)| < |Closure(adj, v)|
  {
    ClosureOfChild(adj, v, c);
    AcyclicNotInOwnClosure(adj, c);
    if v in Closure(adj, c) {
      InClosure(adj, c, v);
      ReachesPrepend(adj, v, c, v);
      assert false;
    }
    var smaller := Closure(adj, v) - {c};
    SubsetCardinality(Closure(adj, c), smaller);
  }

  lemma {:induction false} SubsetCardinality(a: set<Vertex>, b: set<Vertex>)
    requires a <= b
    ensures |a| <= |b|
    decreases a
  {
    if a != {} {
      var x :| x in a;
      SubsetCardinality(a - {x}, b - {x});
    }
  }

  lemma {:induction false} WalkInSuperGraph(small: Adjacency, big: Adjacency, x: Vertex, p: seq<Vertex>)
    requires SubGraph(small, big) && IsWalk(small, x, p)
    ensures IsWalk(big, x, p)
    decreases |p|
  {
    if |p| > 0 {
      WalkInSuperGraph(small, big, p[0], p[1..]);
    }
  }

  lemma ReachesInSuperGraph(small: Adjacency, big: Adjacency, x: Vertex, y: Vertex)
    requires SubGraph(small, big) && Reaches(small, x, y)
    ensures Reaches(big, x, y)
  {
    var p :| |p| > 0 && IsWalk(small, x, p) && p[|p| - 1] == y;
    WalkInSuperGraph(small, big, x, p);
  }

  lemma AcyclicSubGraph(small: Adjacency, big: Adjacency)
    requires SubGraph(small, big) && Acyclic(big)
    ensures Acyclic(small)
  {
    forall v | Reaches(small, v, v)
      ensures false
    {
      ReachesInSuperGraph(small, big, v, v);
    }
  }

  /**
    When every edge `big` has beyond `small` leaves `a`, a walk of `big` from
    `x` either is matched by reachability in `small`, or starts at `a`, or
    reaches `a` already in `small`.
  */
  lemma {:induction false} WalkDetourFrom(small: Adjacency, big: Adjacency, a: Vertex, x: Vertex, p: seq<Vertex>)
    requires forall s, t :: Edge(big, s, t) && !Edge(small, s, t) ==> s == a
    requires |p| > 0 && IsWalk(big, x, p)
    ensures Reaches(small, x, p[|p| - 1]) || x == a || Reaches(small, x, a)
    decreases |p|
  {
    var z := p[|p| - 1];
    if !Edge(small, x, p[0]) {
      assert x == a;
    } else if |p| == 1 {
      ReachesEdge(small, x, z);
    } else {
      var q := p[1..];
      assert q[|q| - 1] == z;
      WalkDetourFrom(small, big, a, p[0], q);
      if Reaches(small, p[0], z) {
        ReachesPrepend(small, x, p[0], z);
      } else if p[0] == a {
        ReachesEdge(small, x, a);
      } else {
        ReachesPrepend(small, x, p[0], a);
      }
    }
  }

  /**
    When every edge `big` has beyond `small` touches `a` at either end, a walk
    of `big` from `x` is matched in `small` unless `x` is `a` or reaches `a`.
  */
  lemma {:induction false} WalkDetourTouching(small: Adjacency, big: Adjacency, a: Vertex, x: Vertex, p: seq<Vertex>)
    requires SubGraph(small, big)
    requires forall s, t :: Edge(big, s, t) && !Edge(small, s, t) ==> s == a || t == a
    requires |p| > 0 && IsWalk(big, x, p)
    ensures Reaches(small, x, p[|p| - 1]) || x == a || Reaches(big, x, a)
    decreases |p|
  {
    var z := p[|p| - 1];
    if !Edge(small, x, p[0]) {
      if x != a {
        assert p[0] == a;
        ReachesEdge(big, x, a);
      }
    } else if |p| == 1 {
      ReachesEdge(small, x, z);
    } else {
      var q := p[1..];
      assert q[|q| - 1] == z;
      WalkDetourTouching(small, big, a, p[0], q);
      if Reaches(small, p[0], z) {
        ReachesPrepend(small, x, p[0], z);
      } else if p[0] == a {
        ReachesEdge(big, x, a);
      } else {
        ReachesPrepend(big, x, p[0], a);
      }
    }
  }

  /**
    Adding or removing edges that leave `a` does not change the closure of a
    vertex `k` that neither is `a` nor reaches `a` in the smaller graph.
  */
  lemma ClosureUnchangedFrom(small: Adjacency, big: Adjacency, a: Vertex, k: Vertex)
    requires SubGraph(small, big)
    requires forall s, t :: Edge(big, s, t) && !Edge(small, s, t) ==> s == a
    requires k != a && !Reaches(small, k, a)
    ensures Closure(big, k) == Closure(small, k)
  {
    forall y
      ensures y in Closure(big, k) <==> y in Closure(small, k)
    {
      InClosure(big, k, y);
      InClosure(small, k, y);
      if Reaches(big, k, y) {
        var p :| |p| > 0 && IsWalk(big, k, p) && p[|p| - 1] == y;
        WalkDetourFrom(small, big, a, k, p);
      }
      if Reaches(small, k, y) {
        ReachesInSuperGraph(small, big, k, y);
      }
    }
  }

  /**
    Removing edges that touch `a` does not change the closure of a vertex `k`
    that neither is `a` nor reaches `a` in the larger graph.
  */
  lemma ClosureUnchangedTouching(small: Adjacency, big: Adjacency, a: Vertex, k: Vertex)
    requires SubGraph(small, big)
    requires forall s, t :: Edge(big, s, t) && !Edge(small, s, t) ==> s == a || t == a
    requires k != a && !Reaches(big, k, a)
    ensures Closure(big, k) == Closure(small, k)
  {
    forall y
      ensures y in Closure(big, k) <==> y in Closure(small, k)
    {
      InClosure(big, k, y);
      InClosure(small, k, y);
      if Reaches(big, k, y) {
        var p :| |p| > 0 && IsWalk(big, k, p) && p[|p| - 1] == y;
        WalkDetourTouching(small, big, a, k, p);
      }
      if Reaches(small, k, y) {
        ReachesInSuperGraph(small, big, k, y);
      }
    }
  }

  /**
    When the only edge `big` has beyond `small` is `a -> b`, a walk of `big`
    from `x` either is matched in `small`, or reaches `a` in `small` and then
    continues from `b`.
  */
  lemma {:induction false} WalkThroughNewEdge(small: Adjacency, big: Adjacency, a: Vertex, b: Vertex, x: Vertex, p: seq<Vertex>)
    requires forall s, t :: Edge(big, s, t) && !Edge(small, s, t) ==> s == a && t == b
    requires |p| > 0 && IsWalk(big, x, p)
    ensures var z := p[|p| - 1];
      Reaches(small, x, z) || ((x == a || Reaches(small, x, a)) && (z == b || Reaches(big, b, z)))
    decreases |p|
  {
    var z := p[|p| - 1];
    var q := p[1..];
    if !Edge(small, x, p[0]) {
      if |p| > 1 {
        assert q[|q| - 1] == z;
        assert Reaches(big, b, z);
      }
    } else if |p| == 1 {
      ReachesEdge(small, x, z);
    } else {
      assert q[|q| - 1] == z;
      WalkThroughNewEdge(small, big, a, b, p[0], q);
      if Reaches(small, p[0], z) {
        ReachesPrepend(small, x, p[0], z);
      } else if p[0] == a {
        ReachesEdge(small, x, a);
      } else {
        ReachesPrepend(small, x, p[0], a);
      }
    }
  }

  /** Adding the edge `a -> b` closes a cycle only if `b` is `a` or already reaches `a`. */
  lemma AcyclicAfterAdding(small: Adjacency, big: Adjacency, a: Vertex, b: Vertex)
    requires Acyclic(small) && SubGraph(small, big)
    requires forall s, t :: Edge(big, s, t) && !Edge(small, s, t) ==> s == a && t == b
    requires a != b && !Reaches(small, b, a)
    ensures Acyclic(big)
  {
    forall v | Reaches(big, v, v)
      ensures false
    {
      var p :| |p| > 0 && IsWalk(big, v, p) && p[|p| - 1] == v;
      WalkThroughNewEdge(small, big, a, b, v, p);
      // The cycle runs through `a -> b`, so `b` reaches `a` in `big` ...
      if v != a {
        ReachesInSuperGraph(small, big, v, a);
        if v != b {
          ReachesTransitive(big, b, v, a);
        }
      }
      assert Reaches(big, b, a);
      // ... and, `b` not being `a`, already in `small`.
      var q :| |q| > 0 && IsWalk(big, b, q) && q[|q| - 1] == a;
      WalkThroughNewEdge(small, big, a, b, b, q);
    }
  }

  lemma MirrorSymmetric(out: Adjacency, inn: Adjacency)
    requires Mirror(out, inn)
    ensures Mirror(inn, out)
  {
  }

  lemma {:induction false} WalkReversed(out: Adjacency, inn: Adjacency, x: Vertex, p: seq<Vertex>)
    requires Mirror(out, inn) && |p| > 0 && IsWalk(inn, x, p)
    ensures Reaches(out, p[|p| - 1], x)
    decreases |p|
  {
    ReachesEdge(out, p[0], x);
    if |p| > 1 {
      var q := p[1..];
      assert q[|q| - 1] == p[|p| - 1];
      WalkReversed(out, inn, p[0], q);
      ReachesTransitive(out, p[|p| - 1], p[0], x);
    }
  }

  lemma ReachesReversed(out: Adjacency, inn: Adjacency, x: Vertex, y: Vertex)
    requires Mirror(out, inn) && Reaches(inn, x, y)
    ensures Reaches(out, y, x)
  {
    var p :| |p| > 0 && IsWalk(inn, x, p) && p[|p| - 1] == y;
    WalkReversed(out, inn, x, p);
  }

  /** Under mirroring, `u` is an ancestor of `v` exactly when `v` is a descendant of `u`. */
  lemma MirrorClosure(out: Adjacency, inn: Adjacency, u: Vertex, v: Vertex)
    requires Mirror(out, inn)
    ensures u in Closure(inn, v) <==> v in Closure(out, u)
  {
    InClosure(inn, v, u);
    InClosure(out, u, v);
    MirrorSymmetric(out, inn);
    if Reaches(inn, v, u) {
      ReachesReversed(out, inn, v, u);
    }
    if Reaches(out, u, v) {
      ReachesReversed(inn, out, u, v);
    }
  }

  lemma AcyclicMirror(out: Adjacency, inn: Adjacency)
    requires Mirror(out, inn) && Acyclic(out)
    ensures Acyclic(inn)
  {
    forall v | Reaches(inn, v, v)
      ensures false
    {
      ReachesReversed(out, inn, v, v);
    }
  }

  lemma EmptyClosureIffNoNeighbours(adj: Adjacency, v: Vertex)
    ensures Closure(adj, v) == {} <==> Neighbours(adj, v) == {}
  {
    if c :| c in Neighbours(adj, v) {
      ClosureOfChild(adj, v, c);
    }
    if y :| y in Closure(adj, v) {
      ClosureThroughChild(adj, v, y);
    }
  }

  /** A vertex with a single child reaches that child and what the child reaches. */
  lemma ClosureOfOnlyChild(adj: Adjacency, v: Vertex, c: Vertex)
    requires forall b :: Edge(adj, v, b) <==> b == c
    ensures Closure(adj, v) == {c} + Closure(adj, c)
  {
    ClosureOfChild(adj, v, c);
    forall y | y in Closure(adj, v)
      ensures y in {c} + Closure(adj, c)
    {
      ClosureThroughChild(adj, v, y);
    }
  }
}
