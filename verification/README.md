# heimdalr/dag: the DAG engine in Dafny

A model of the in-memory directed acyclic graph of `dag.go` and of the error
kinds of `errors.go`.

The DAG keeps five pieces of state:
- a vertex set;
- an outbound map, from each vertex to its children;
- an inbound map, from each vertex to its parents;
- an ancestor cache and a descendant cache, which memoise transitive closures.

`AddVertex` checks its argument and only adds the vertex. `AddEdge`,
`DeleteEdge` and `DeleteVertex`, once past their argument checks, read the
closures they need under the old topology (which warms the caches), then
change the maps and drop every cache entry the change can make stale.
`AddEdge` can still refuse the edge after that read, as a loop.

The model has one datatype `Dag` (module `DagState`) and one predicate `Inv`
that every operation keeps. `Inv` says:
- the maps mention only known vertices;
- the inbound map mirrors the outbound map exactly;
- the edges form no cycle;
- every cache entry present is the true closure of its key.

Reachability is defined once, in module `Graph`:
- a walk is a non-empty sequence of edges;
- `Closure(adj, v)` is everything a walk from `v` can end at;
- descendants are the closure over the outbound map, ancestors the closure
  over the inbound map.

Modules, in dependency order:
- `Wrappers`: `Option` (nil is `None`) and `Result`.
- `Graph`: adjacency maps, walks, reachability and closures. It holds the
  graph lemmas the operations rest on: mirroring reverses reachability,
  adding an edge keeps a graph acyclic, and closures unaffected by a change
  stay the same.
- `Errors`: the six error kinds and their `Error()` texts. The vertex's
  `String()` method is a function parameter `str`.
- `Memo`: `getAncestorsAux` and `getDescendantsAux`, as recursive methods
  that fill a cache.
- `DagState`: the state, the invariant, and the queries that do not touch
  the caches.
- `DagClosure`: `GetAncestors` and `GetDescendants`.
- `DagMutation`: `AddVertex`, `AddEdge`, `DeleteEdge` and `DeleteVertex`.
  The map and cache updates after each operation's checks are pure functions
  (`Link`, `Unlink`, `Detach`), each proved to keep `Inv`.
- `Scenarios`: call sequences from `dag_test.go`. Each test's expected
  answers follow from the operations' contracts.
- `VertexLocks`: the bookkeeping of the per-vertex lock pool, as written and
  as intended (see Findings).

Operations that warm a cache (`GetAncestors`, `GetDescendants` and the
mutations that call them) are methods. They return the new `Dag` value
instead of updating a shared object. The operations that read closures
require `Inv`; `NewDAG` establishes it and every operation keeps it.

`GetOrder`, `GetLeafs` and `GetRoots` are plain functions (dag.go:260-262,
274-283, 286-295). Their meaning is stated by the contracts of `NewDAG`,
`AddVertex` and `DeleteVertex` (the order) and by the lemmas
`LeafsHaveNoDescendants` and `RootsHaveNoAncestors`.

Behaviour kept from the code:
- `getAncestorsAux` stores an empty placeholder for `v` before it visits the
  parents and fills it in as it goes.
- `getDescendantsAux` looks the cache up on entry and stores its entry only
  when the entry is complete.
- Both recursions terminate because the graph is acyclic: each recursive call
  is on a vertex with a strictly smaller closure.
- Go's unspecified map iteration order becomes a nondeterministic choice (`:|`).
- `AddEdge` adds both endpoints to the vertex set after the nil checks
  (dag.go:126-131) and before the duplicate and loop checks (dag.go:134-137).
  Its warm-up reads of the closures (dag.go:149-150) run before the loop
  check, so a refused edge still leaves both endpoints known and may have
  warmed caches.
- Self-loops are refused with `EdgeLoopError` (dag.go:153). Some of the
  repository's tests expect `SrcDstEqualError` for this, but that error kind
  belongs to a later version of the code that is not part of this model.
- `DeleteEdge` drops the ancestor entries of `src` and its descendants, and
  the descendant entries of `dst` and its ancestors (dag.go:238-252). This
  drops more than needed, and the model proves it drops enough.

## Model

| member | source | states |
|---|---|---|
| Graph.AcyclicAfterAdding | dag.go:148-173 | adding `a -> b` to an acyclic graph where `a != b` and `b` does not reach `a` keeps it acyclic; this is why AddEdge's loop check suffices |
| Graph.MirrorClosure | dag.go:163-173 | when the inbound map mirrors the outbound map, `u` is an ancestor of `v` exactly when `v` is a descendant of `u` |
| Graph.AcyclicMirror | dag.go:329-346 | the inbound map of an acyclic outbound map is acyclic, so the ancestor recursion terminates too |
| Graph.ChildClosureSmaller | dag.go:333-337 | in an acyclic graph a child's closure is a strict subset of its parent's and does not contain the parent; this is the measure on which the closure recursions terminate |
| Graph.AcyclicNotInOwnClosure | dag.go:349-402 | in an acyclic graph no vertex is among its own ancestors or descendants |
| Graph.ClosureUnchangedFrom | dag.go:175-189 | after edges leaving `a` are added or removed, the closure of any `k != a` that does not reach `a` is unchanged; this is why the entries AddEdge and DeleteEdge keep stay correct |
| Graph.ClosureUnchangedTouching | dag.go:93-107 | after edges touching `a` are removed, the closure of any `k != a` that does not reach `a` is unchanged; this is why the entries DeleteVertex keeps stay correct |
| Graph.EmptyClosureIffNoNeighbours | dag.go:274-295 | a vertex has no descendants (ancestors) exactly when its outbound (inbound) set is missing or empty |
| Errors.DagError.Message | errors.go:9-64 | each kind renders its fixed text around `str` of its vertices (the nil text; a quoted vertex then " is already known" or " is unknown"; "edge between" two quoted vertices then " is already known", " is unknown" or " would create a loop"); the contract states that the first, last and seventh-from-last characters tell the kinds apart, whatever the vertices render as |
| Errors.MessageDeterminesKind | errors.go:9-64 | equal `Error()` texts mean the same error kind, and for a one-vertex error the same vertex text between the quotes |
| Errors.VertexMessageExamples | errors_test.go:16-18 | nil, duplicate-vertex and unknown-vertex texts for vertex "1" are exactly the expected strings |
| Errors.EdgeMessageExamples | errors_test.go:19-21 | duplicate-edge, unknown-edge and loop texts for "1" and "2" are exactly the expected strings |
| Memo.AncestorsAux | dag.go:329-346 | the entry stored for `v` is exactly its ancestor set; entries already present are kept unchanged; every new entry is for `v` or one of its ancestors and is correct. Partly built entries elsewhere in the cache are tolerated |
| Memo.DescendantsAux | dag.go:364-390 | the result and the stored entry are exactly the descendant set of `v`; the cache stays correct; no entry is lost; new entries are only for `v` and its descendants |
| DagState.NewDAG | dag.go:28-37 | the new DAG satisfies the invariant, with order 0, no edges, empty adjacency maps and empty caches |
| DagState.GetSize | dag.go:265-271 | the sum of the outbound set sizes is the number of edges |
| DagState.GetChildren | dag.go:303-314 | nil gives VertexNilError, an unknown vertex gives VertexUnknownError; a known vertex always succeeds, with exactly the targets of its outbound edges (none when its outbound set is missing) |
| DagState.GetParents | dag.go:317-327 | nil gives VertexNilError, an unknown vertex gives VertexUnknownError; a known vertex always succeeds, with exactly the sources of its inbound edges (none when its inbound set is missing) |
| DagState.ChildrenParentsAgree | dag.go:303-327 | `w` is a child of `v` exactly when `v` is a parent of `w`, and both mean the edge `v -> w` |
| DagState.LeafsHaveNoDescendants | dag.go:274-283 | a vertex is a leaf exactly when it is known and has no descendants |
| DagState.RootsHaveNoAncestors | dag.go:286-295 | a vertex is a root exactly when it is known and has no ancestors; no edge enters a root |
| DagClosure.GetAncestors | dag.go:349-362 | nil and unknown vertices give errors and change nothing; otherwise the result is exactly the ancestor set, cached or not, never contains `v`, and is then cached; only the ancestor cache changes, and it keeps every entry |
| DagClosure.GetDescendants | dag.go:393-402 | nil and unknown vertices give errors and change nothing; otherwise the result is exactly the descendant set, never contains `v`, and is then cached; only the descendant cache changes, and it keeps every entry |
| DagMutation.AddVertex | dag.go:41-56 | nil gives VertexNilError and a known vertex VertexDuplicateError, both changing nothing; otherwise the vertex set grows by exactly `v`, the order by one, and edges and caches are untouched; the invariant is kept |
| DagMutation.Link | dag.go:157-189 | the edge relation gains exactly `src -> dst`; the invariant holds; the ancestor cache loses exactly `dst` and its old descendants, and the descendant cache exactly `src` and its old ancestors |
| DagMutation.LinkKeepsInv | dag.go:157-189 | adding a cycle-free edge in both maps, and dropping those cache entries, keeps mirroring, acyclicity and cache correctness |
| DagMutation.Unlink | dag.go:226-252 | the edge relation loses exactly `src -> dst`; the invariant holds; the ancestor cache loses exactly `src` and its old descendants, and the descendant cache exactly `dst` and its old ancestors |
| DagMutation.UnlinkKeepsInv | dag.go:226-252 | removing an edge from both maps, and dropping those cache entries, keeps mirroring, acyclicity and cache correctness |
| DagMutation.Detach | dag.go:74-117 | `v` leaves the vertex set; the edges are the old ones not touching `v`; the invariant holds; both caches lose exactly `v` and its old descendants (ancestor cache) or old ancestors (descendant cache) |
| DagMutation.DetachKeepsInv | dag.go:74-117 | removing every edge touching `v`, and dropping those cache entries, keeps mirroring, acyclicity and cache correctness |
| DagMutation.AddEdge | dag.go:123-195 | nil endpoints give VertexNilError and change nothing. Otherwise both endpoints become known. A known edge gives EdgeDuplicateError with the rest unchanged. A self-loop or an edge from a descendant of `dst` gives EdgeLoopError with the edges unchanged. It succeeds exactly in the remaining cases, and then the edge set grows by exactly `src -> dst`, the size by one, and the stale cache entries are gone while the others are kept. The invariant is always kept |
| DagMutation.DeleteEdge | dag.go:198-257 | errors in the order nil, unknown `src`, unknown `dst`, unknown edge, each changing nothing; success exactly when the edge exists, and then the vertices stay, the edge set loses exactly `src -> dst`, the size drops by one, and the stale cache entries are gone while the others are kept; the invariant is always kept |
| DagMutation.DeleteVertex | dag.go:60-120 | nil and unknown vertices give errors and change nothing; success exactly for a known vertex, and then it leaves the vertex set, the order drops by one, exactly the edges touching it go, and the stale cache entries are gone while the others are kept; the invariant is always kept |
| Scenarios.AddEdgeScenario | dag_test.go:324-372 | building 0 -> 1 -> 2 -> 3 from a new DAG: after 1 -> 2, vertex 1 has one child, 2 one parent, there are three leaves and three roots, and descendant and ancestor counts 1, 1; then counts 2, 2; then 3, 3 |
| Scenarios.RefusedEdgesScenario | dag_test.go:374-397 | on that chain, `1 -> 1` and `2 -> 1` are refused with EdgeLoopError and `1 -> 2` with EdgeDuplicateError |
| Scenarios.DeleteEdgeScenario | dag_test.go:416-436 | one edge gives size 1, deleting it gives size 0, and deleting it again gives EdgeUnknownError |
| Scenarios.GetDescendantsScenario | dag_test.go:599-621 | the tree 1 -> 2, 2 -> 3, 2 -> 4 has descendant counts 3, 2, 0, 0 |
| VertexLocks.LockVertexAsWritten | dag.go:429-449 | the interest count of `v` rises by one and the caller holds a locked copy, while the pool's own mutex keeps its state; it blocks exactly when that mutex is already locked |
| VertexLocks.UnlockVertex | dag.go:451-469 | a missing entry is a nil dereference and an unlocked mutex a fatal error; otherwise the mutex is released, the count drops by one, and the entry is removed exactly when the count reaches zero, nothing else changing |
| VertexLocks.UnlockAfterCopyIsFatal | dag.go:440-457 | as written, a lock followed by its unlock fails with "sync: unlock of unlocked mutex" from any pool without locked mutexes, and the lock keeps the pool that way |
| VertexLocks.FirstDescendantQueryIsFatal | dag.go:364-367 | as written, the lock and deferred unlock of the first getDescendantsAux call on a new DAG already fail |
| VertexLocks.LockVertex | dag.go:429-449 | as intended: the interest count rises by one and the pool's own mutex is locked and held; it blocks exactly when that mutex is already locked |
| VertexLocks.LockUnlockRoundTrip | dag.go:429-469 | as intended, a lock of a free vertex followed by its unlock succeeds and leaves the pool exactly as it was |
| Scenarios.DeleteVertexScenario | dag_test.go:255-303 | the chain 1 -> 2 -> 3 has order 3, size 2, one leaf, one root, and closure sizes 2, 2; after deleting 2: order 2, size 0, two leaves, two roots, closure sizes 0, 0 |

## Left out

- Locks: the mutual exclusion of the `muVertices` and `muEdges` mutexes and of the per-vertex lock pool. Every operation is modelled as one sequential step. Only the pool's bookkeeping is modelled (`VertexLocks`), to record the defect below.
- The lock pool copies its mutex by value (dag.go:442), locks the copy (dag.go:448), and the deferred unlock releases the pool's mutex (dag.go:457), which was never locked. Go treats that as a fatal, unrecoverable error, even with a single goroutine. As written, every `getDescendantsAux` call therefore aborts the program. That covers `GetDescendants` (dag.go:401) and every `AddEdge`, `DeleteEdge` or `DeleteVertex` that gets past its argument checks (dag.go:149, 223, 71). `DagClosure.GetDescendants`, the mutations and the scenarios model the intended result, the descendant set, instead. See Findings.
- Goroutines and the `WaitGroup` in `getDescendantsAux` (dag.go:372-386). The children are visited one after another. The concurrent writes to the shared result map and to the cache in the Go code are not modelled.
- `String()` (dag.go:405-418): text formatting over map iteration order.
- `GetVertices` (dag.go:298-300) and the sharing of returned maps: the Go code hands out its internal maps by reference, while the model passes every set by value.
- Vertex identity: vertices are an abstract type with equality. Go's interface equality (dynamic type plus value) is taken as given. A vertex whose dynamic type is not comparable makes Go panic ("hash of unhashable type") at its first map access, such as `d.vertices[v]` (dag.go:47); the model has no such vertices.
- `marshal.go` and `options.go`: JSON encoding and the hashing hook call functions and fields that are not part of this model.
- The later API that many tests exercise is not part of this model. It includes string ids, `AddVertexByID`, `GetVertex`, `IDEmptyError`, `IDUnknownError`, `SrcDstEqualError`, walkers, `ReduceTransitively`, `FlushCaches`, `Copy`, the `Get*Graph` queries and `DescendantsFlow`. The scenarios replay only the calls whose outcomes this version defines. Each one starts from non-nil, distinct vertices.
- `cmd/*`: demonstration and timing programs.

## Findings

| source | as written | input that shows it | evidently intended | confidence | as-written member | corrected member |
|---|---|---|---|---|---|---|
| dag.go:442-457 | `lockVertex` copies the pool's `sync.Mutex` into `vMutex` and locks the copy; `unlockVertex` unlocks the pool's mutex, which is still unlocked, a fatal error in Go, so every `getDescendantsAux` call (and hence `GetDescendants`, and `AddEdge`, `DeleteEdge`, `DeleteVertex` past their checks) aborts | a new DAG after `AddVertex(v)`: `GetDescendants(v)` locks a copy, then its deferred unlock fails | lock the pool's own mutex (through the pointer) so the unlock releases what was locked; the query then returns the descendant set | medium: read from the semantics of `sync.Mutex`, not executed | VertexLocks.UnlockAfterCopyIsFatal | VertexLocks.LockUnlockRoundTrip |
