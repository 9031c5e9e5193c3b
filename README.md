# Inverse minimum spanning tree, modelled in Dafny

This project models `graph::InverseMst<T>` (`include/inverse_mst.hpp`) with
`T = int`. The solver gets a weighted graph and an edge list ("ribs"). The
first `n - 1` entries of the list are the edges of a designated spanning
tree and the rest are non-tree edges. The solver changes the weights in the
list, in place, so that the tree becomes a minimum spanning tree. It works
in five phases, and the model keeps each phase's arrays and loops:

1. **Tree paths.** For every non-tree edge `i = (a, b)`, a breadth-first
   traversal from `a` crosses tree edges only. It records in `rib_id` the
   arrival edge of every vertex it reaches. A neighbour across a non-tree
   edge is skipped and the scan goes on. (`TreePaths`)
2. **Arc construction.** The flow network has one node per edge-list
   entry, a source `s = m` and a sink `t = m + 1`. Walking back from `b` to
   `a` along the arrival edges installs, for each tree edge `r` on the way,
   capacity `u[r][i] = n`, cost `c[r][i] = w_i - w_r` and `c[i][r] = -c[r][i]`.
   Then come the boundary arcs: `s -> t` with capacity `n + 1`, `s -> r` for
   every tree edge and `i -> t` for every non-tree edge, each with capacity 1.
   (`TreePaths`, `Network`)
3. **Initial potentials.** A tree edge's potential is the least slack
   `w_j - w_r` over its constraint arcs, or `INF`. The source's potential is
   the least of `INF` and those. (`Network`)
4. **Min-cost flow.** Successive shortest paths with potentials. Each round
   runs a label-correcting search with a deque: a node improved for the
   first time goes to the back, one improved after it was scanned goes to the
   front. The round then lowers every potential by its label and pushes one
   unit along the predecessor chain from `t` to `s`. The rounds stop once
   `p[t] == s`. (`Search`, `Flow`)
5. **Write-back.** The edge potentials are taken relative to the source's.
   Every edge whose boundary arc carries flow gets its potential added to its
   weight. (`InverseMst`)

Files: `wrappers.dfy` (Option), `ribs.dfy` (edge list, graph container,
edge lookup, outcomes, matrix snapshots), `traversal.dfy` (the breadth-first
traversal's invariant over plain sequences), `tree_paths.dfy`, `network.dfy`,
`search.dfy` (the search invariant over plain sequences), `chains.dfy`
(predecessor chains, augmenting paths and the totals over the rounds),
`history.dfy` (each round's search outcome and the history of a run, over
plain values), `flow.dfy`, `inverse_mst.dfy`.

The C++ code has no error paths. Where it would read out of bounds or loop
for ever, the model stops with an `Outcome` that says so:

- `TreePathMissing`: `b` is not reached, so `rib_id[b] == -1` would be used
  as an index.
- `PathBroken`: the predecessor chain from `t` does not lead back to `s`.
- `FuelExhausted`: a search or the rounds exceeded the `fuel` bound.

In every case other than `Converged` the edge list is left unchanged.

## Model

| member | source | states |
|---|---|---|
| Ribs.EdgeKey | include/inverse_mst.hpp:59-62 | the lookup key for adjacency pair (v, j) has its endpoints in increasing order, is exactly {v, j}, and carries the container's weight for that ordered pair |
| Ribs.FindRib | include/inverse_mst.hpp:57-62 | the result is the first index holding exactly the key; every earlier entry differs; it is \|ribs\| when the key is absent |
| Ribs.Other | include/inverse_mst.hpp:83-85 | the endpoint crossed to is an endpoint of the edge, and it differs from the current vertex unless the edge is a loop |
| Ribs.CountMarkedSet | include/inverse_mst.hpp:64-73 | marking a vertex that was -1 raises the count of marked vertices by exactly one, so the queue tail always equals that count and can never pass n |
| Ribs.CountMarkedNone | include/inverse_mst.hpp:51 | with every rib_id at -1, as after the fill, no vertex counts as marked |
| Ribs.TableIs | include/inverse_mst.hpp:133 | a table with the matrix's shape and entries is the matrix's snapshot, which lets an in-place update be stated as "new matrix == function of the old one" |
| TreePaths.TreeBfs | include/inverse_mst.hpp:47-75 | after the traversal from a: rib_id[a] == -2; every reached vertex other than a has as rib_id a tree edge (index < n-1) incident to it, whose far end was reached earlier; that rib_id is the first edge-list entry for the pair; every tree-edge neighbour of a reached vertex is reached |
| TreePaths.ScanNeighbours | include/inverse_mst.hpp:54-74 | scanning all neighbours of the queue head keeps the traversal invariant with the head advanced by one; the queue up to the old tail is unchanged; a vertex already reached keeps its rib_id; a newly reached vertex is a neighbour of the head and has as rib_id the first entry for that pair |
| TreePaths.VisitNeighbour | include/inverse_mst.hpp:56-74 | one neighbour j: when its lookup index r is a tree edge and j was unreached, rib_id becomes old rib_id with j set to r, q becomes old q with j at the old tail, and the tail grows by one; otherwise rib_id, q and the tail are unchanged; the traversal invariant is kept and the head is expanded one neighbour further |
| TreePaths.MarkNeighbour | include/inverse_mst.hpp:64-73 | the marking branch alone: rib_id[j] := r and q[tl] := j, exactly, with the tail below n; the traversal invariant is kept |
| Traversal.MarkReached | include/inverse_mst.hpp:64-73 | recording an unreached neighbour across tree edge r and queueing it at the tail keeps the traversal invariant; the tail was below n, so the n-slot queue never overflows |
| Traversal.MarkKeepsArrival | include/inverse_mst.hpp:64-70 | the new arrival record is a tree edge incident to the new vertex whose parent is the vertex being scanned; all other records stay well formed |
| Traversal.MarkKeepsFirstEntries | include/inverse_mst.hpp:65-70 | the new arrival record is the first edge-list entry matching the pair, as for every other reached vertex |
| Traversal.MarkKeepsQueue | include/inverse_mst.hpp:73 | after q[tl] := j, every queued vertex is reached and sits at its recorded position, and every reached vertex is queued once |
| Traversal.MarkKeepsExpanded | include/inverse_mst.hpp:64-73 | marking a vertex keeps every scanned vertex fully expanded and the current head expanded one neighbour further |
| Traversal.ExpandedGrows | include/inverse_mst.hpp:56-73 | marks are never removed, so a vertex expanded up to some neighbour stays expanded after more vertices are marked |
| Traversal.FinishScan | include/inverse_mst.hpp:54-74 | with all neighbours of the head expanded, the traversal invariant holds with the head advanced by one |
| Traversal.ExpandedStep | include/inverse_mst.hpp:57-63 | a neighbour across a non-tree edge (lookup index >= n-1), or one already reached, needs no action for the head to count as expanded one neighbour further |
| Traversal.WalkEndSnoc | include/inverse_mst.hpp:83-85 | crossing one more edge incident to the end of a walk moves the end to that edge's other endpoint |
| Traversal.ReachedSeparates | include/inverse_mst.hpp:47-75 | when the traversal from a leaves b unreached, the reached vertices are a set holding a, not b, and every neighbour of a member whose edge-list lookup is a tree edge: b cannot be reached from a by any sequence of the traversal's steps |
| Traversal.ArrivalEdgeFresh | include/inverse_mst.hpp:79-85 | the arrival edge of the walk's current vertex is not yet on the walk, since its far end was queued before every vertex the walk passed |
| Traversal.TreeWalkSnoc | include/inverse_mst.hpp:79-85 | a tree walk extended by a fresh tree edge at its end stays a tree walk, ending at that edge's far side |
| Traversal.WalkBackStep | include/inverse_mst.hpp:79-85 | one step of the walk back from v to the far end of v's arrival edge extends the walk by exactly that edge and the vertex list by exactly that far end; the edge is a tree edge not crossed before, since every vertex passed so far arrived later than v |
| TreePaths.SetConstraintArc | include/inverse_mst.hpp:86-88 | sets u[r][i] = n, c[r][i] = cost and c[i][r] = -cost, and changes no other entry |
| TreePaths.CrossTreeEdge | include/inverse_mst.hpp:86-88 | installing the arcs of one more tree edge r extends "u[x][i] == n, c[x][i] == w_i - w_x and c[i][x] == w_x - w_i exactly for the edges x of the walk so far" by r, with every other entry as it was before the walk |
| TreePaths.AddCycleArcs | include/inverse_mst.hpp:79-89 | the walk from b follows the arrival records: each step crosses the current vertex's arrival edge to its far end, every vertex passed arrived later than the one after it, it ends at a over tree edges and crosses no edge twice; u[x][i] == n, c[x][i] == w_i - w_x and c[i][x] == w_x - w_i exactly for the tree edges x on it; every other entry is unchanged |
| Network.CycleArcs | include/inverse_mst.hpp:47-89 | for one non-tree edge: when b is not reached, b is separated from a (some vertex set holds a, not b, and every tree-edge neighbour of its members); when b is reached, the walk from b to a over tree edges crossing no edge twice is found and its arcs are installed as above; otherwise nothing changes |
| Network.ExtendArcs | include/inverse_mst.hpp:79-89 | adding non-tree edge i's column to the constraint arcs of the earlier non-tree edges gives the constraint arcs of all edges up to i |
| Network.BuildArcs | include/inverse_mst.hpp:46-90 | on failure, some non-tree edge's b is separated from its a as CycleArcs states; on success, each non-tree edge's tree walk runs from b to a and crosses no edge twice; u is n exactly on arcs (tree edge on the walk -> non-tree edge) and 0 elsewhere; c is w_y - w_x on those arcs and their mirrors and 0 elsewhere, so c is antisymmetric |
| Network.SetBoundaryArcs | include/inverse_mst.hpp:91-93 | u[s][t] == n+1; u[s][r] == 1 for every tree edge; u[i][t] == 1 for every non-tree edge; every other capacity is unchanged |
| Network.SlackUpToIsLeast | include/inverse_mst.hpp:97-101 | the folded minimum is at most INF and at most every slack w_j - w_r with u[r][j] != 0; it is INF or equal to one of those slacks |
| Network.LeastSlack | include/inverse_mst.hpp:98-101 | the inner loop computes the least slack of tree edge r as just characterised |
| Network.InitialPotentials | include/inverse_mst.hpp:95-103 | every tree-edge potential is its least slack; pi[s] <= INF and pi[s] <= every tree-edge potential; pi[s] is INF or equal to one of them; non-tree and sink potentials are 0 |
| Network.SlackOnCycles | include/inverse_mst.hpp:99-101 | when u[r][j] != 0 exactly for the non-tree edges j whose cycle path crosses r, the least slack over the capacities is the least slack over the cycles |
| Search.SearchStart | include/inverse_mst.hpp:106-111 | the initial state (only s queued, d[s] = 0, other labels INF, no predecessors, all states 0) satisfies the search invariant |
| Search.PopKeeps | include/inverse_mst.hpp:113-115 | popping the front of the deque and marking it scanned (state 2) keeps the search invariant |
| Search.RelaxKeeps | include/inverse_mst.hpp:117-127 | lowering d[i] across a residual arc from v sets p[i] = v and state 1; it queues i at the back from state 0, at the front from state 2, not again from state 1; the invariant is kept |
| Search.SkipKeeps | include/inverse_mst.hpp:116-119 | a saturated arc, or one that does not lower the label, leaves the state as it is and counts as scanned |
| Search.ScanDone | include/inverse_mst.hpp:116-128 | once all nn arcs out of v are scanned, v is settled like every other scanned node |
| Search.SearchDone | include/inverse_mst.hpp:112-129 | with the deque empty, every node with a finite label has been scanned |
| Search.LoweredStep | include/inverse_mst.hpp:119-126 | one more relaxation from v keeps "every label is at most its value before the scan; a lowered node has predecessor v and state 1; every other node keeps its predecessor and state" |
| Flow.RelaxArc | include/inverse_mst.hpp:117-127 | one arc of the scan keeps the search invariant. If f[v][i] < u[v][i] and d[v] + c[v][i] - pi[v] + pi[i] < d[i], the new state is exactly: that label, p[i] = v, state 1, and the deque as the back/front rule says. Otherwise nothing changes |
| Flow.ScanArcs | include/inverse_mst.hpp:116-128 | scanning every arc out of v keeps the search invariant and leaves v settled; relative to the state before the scan, no label rises, every lowered node has predecessor v and state 1, every other node keeps its predecessor and state |
| Flow.ScanFront | include/inverse_mst.hpp:113-128 | one pop plus its scan keeps the search invariant; relative to the state before, with the popped node marked 2, the change is as ScanArcs states with v the popped node |
| Flow.SearchOutcome | include/inverse_mst.hpp:112-129 | with the deque empty, the labels are shortest-path labels as ShortestPaths states them |
| Flow.ShortestPaths | include/inverse_mst.hpp:106-129 | when the deque empties: labels never rise above their start (d[s] <= 0, others <= INF); an unreached node keeps INF and has no predecessor; a predecessor arc p[y] -> y is residual and d[y] >= d[p[y]] + reduced cost; no residual arc out of a finite-label node can lower a label further |
| Flow.UpdatePotentials | include/inverse_mst.hpp:130 | pi[x] is lowered by d[x] for every node: the new potentials are Lower(old pi, d) |
| Flow.LabelsLowerCosts | include/inverse_mst.hpp:130 | after a finished search, the lowered potentials give every residual arc out of a finite-label node a non-negative reduced cost and every predecessor arc out of one a reduced cost of zero |
| Chains.PredPath | include/inverse_mst.hpp:131 | a returned chain starts at t, ends at s, follows p at every step and visits s only at its end, with at most fuel + 1 nodes; for t == s it is [s] |
| Chains.PredPathFinds | include/inverse_mst.hpp:131 | with at least as many steps as a predecessor chain from v to s has arcs, the walk returns exactly that chain |
| Chains.PredPathExact | include/inverse_mst.hpp:131 | with \|p\| steps the walk gives None exactly when no predecessor chain from v to s exists, and otherwise returns every such chain, which is therefore unique |
| Chains.DistinctBound | include/inverse_mst.hpp:131 | a chain of distinct nodes below nn has at most nn nodes, so nn steps never cut a chain short |
| Chains.ChainSimple | include/inverse_mst.hpp:131 | a predecessor chain that stops at its first visit to s never repeats a node |
| Chains.ChainShift | include/inverse_mst.hpp:131 | a predecessor chain that repeats a node repeats everything after it: equal nodes at positions j < k stay equal n steps on |
| Chains.ChainArcs | include/inverse_mst.hpp:131-134 | the walk uses each arc at most once; every arc it uses is a predecessor arc p[y] -> y; it never uses t -> s; it uses s -> t exactly when p[t] == s |
| Chains.ArcCountSimple | include/inverse_mst.hpp:131-134 | on a path without repeated nodes an arc is used once when it joins two neighbouring nodes and otherwise not at all |
| Chains.ChainRoute | include/inverse_mst.hpp:131 | a chain from t back to s is a route: at least two nodes, from t to s, all below nn, none twice |
| Chains.PotentialsSnoc | include/inverse_mst.hpp:105-130 | lowering the potentials after some rounds by one more round's labels gives the potentials after that round too |
| Chains.LabelSumSnoc | include/inverse_mst.hpp:130 | the total label of a node over one more round grows by exactly that round's label |
| Chains.FlowOfSnoc | include/inverse_mst.hpp:105-134 | augmenting the sum of the paths so far along one more path gives the sum of all of them |
| Chains.ArcSumSnoc | include/inverse_mst.hpp:131-134 | the number of pushes across an arc over one more path grows by exactly that path's uses of the arc |
| Chains.EmptyFlow | include/inverse_mst.hpp:41 | the sum of no paths is the zero flow the phase starts from |
| Chains.BypassSum | include/inverse_mst.hpp:131-134 | the bypass path [t, s] alone puts +1 on s -> t, -1 on t -> s and 0 everywhere else |
| Chains.BypassFlow | include/inverse_mst.hpp:131-135 | a flow that is the bypass path alone is the unit flow on s -> t |
| History.RoundOutcomeSnoc | include/inverse_mst.hpp:105-135 | a round's search outcome over the flow and potentials of the rounds before it stays recorded when the history grows by a later round |
| History.HistorySnoc | include/inverse_mst.hpp:105-135 | a history extended by one round whose search outcome is stated over the current flow and potentials stays a history: with the round's path when its chain from t reaches s, without one otherwise |
| History.RecordRound | include/inverse_mst.hpp:105-135 | a round that took the run's flow and potentials one step (RoundStep) leaves the potentials at the start ones lowered by every label including its own and the flow at the sum of the paths including its own unless broken; the extended history is a history, and the run converges exactly when the new path is [t, s] |
| Chains.BypassRunSnoc | include/inverse_mst.hpp:131-135 | adding a route to a run that has not met the bypass keeps every path a route and converges exactly when the new route is [t, s] |
| Flow.PushUnit | include/inverse_mst.hpp:133 | ++f[x][y] and --f[y][x], with no other entry changed |
| Flow.Augment | include/inverse_mst.hpp:131-134 | the walk from t to s along p changes every f[x][y] by the number of times the chain uses x -> y minus the number of times it uses y -> x |
| Flow.AugmentKeepsFlow | include/inverse_mst.hpp:131-134 | pushing one unit along residual predecessor arcs keeps f antisymmetric and f <= u everywhere; f[s][t] grows by one exactly when p[t] == s |
| Flow.BypassTaken | include/inverse_mst.hpp:117-126 | when the bypass is the only arc into t and its reduced cost is at most -INF, the search from the zero flow takes it: p[t] == s |
| Flow.SearchRound | include/inverse_mst.hpp:106-130 | when the search finishes, its labels and predecessors are shortest-path labels over the round's starting state and the potentials become Lower(old pi, labels); when it runs out of fuel the potentials are unchanged; from the zero flow with the bypass forced, p[t] == s |
| Flow.AugmentRound | include/inverse_mst.hpp:131-135 | broken exactly when no predecessor chain leads from t to s, and then f is unchanged; otherwise the new f is Augmented(old f, chain), last == (p[t] == s) == (chain == [t, s]), f[s][t] grows by one exactly then, and the flow stays antisymmetric and within capacity |
| Flow.FlowRound | include/inverse_mst.hpp:106-135 | a failure is only fuel or a broken chain; out of fuel, pi and f are unchanged; otherwise the round is a RoundStep from the old flow and potentials: the labels and predecessors are the search outcome over them, pi becomes Lower(old pi, labels), broken exactly when the chain from t misses s and then f is unchanged, else f becomes Augmented(old f, path) along that chain; last holds exactly when the path is [t, s]; from the zero flow with the bypass forced the round never breaks and is the last |
| Flow.RunRound | include/inverse_mst.hpp:105-135 | one round over the run's history (labels, predecessors, paths) from the start potentials: the result is again a history, extended by exactly this round (its labels and predecessors, and its path unless broken) or, out of fuel, unchanged; pi stays the start potentials lowered by every recorded label and f the sum of the recorded paths; the run converges exactly when the new path is the bypass |
| Flow.MinCostFlow | include/inverse_mst.hpp:105-136 | from f = 0 the flow stays antisymmetric and within capacity; the returned labels, predecessors and paths are a run history from the start potentials, so each round's labels are its search outcome over the flow and potentials the earlier rounds left and each path is its round's predecessor chain; the final pi is the start potentials lowered by every round's labels and f is the sum of the augmenting paths; every path is a route from t to s and only the last can be [t, s], which it is exactly on convergence, when f[s][t] == 1; when the start potentials force the bypass, the chain never breaks and the only path is [t, s] |
| InverseMst.WriteBack | include/inverse_mst.hpp:138-142 | pi[i] becomes pi[i] - pi[s] for every edge node; a tree edge gets that added to its weight iff f[s][i] != 0, a non-tree edge iff f[i][t] != 0; endpoints and all other weights are unchanged |
| InverseMst.TreeOnlyBypass | include/inverse_mst.hpp:91-103 | with no non-tree edges, the bypass is the only arc into t and its reduced cost is at most -INF |
| InverseMst.CarriesSnapshot | include/inverse_mst.hpp:139-142 | the carried-flow test on the matrix f agrees with the same test on its snapshot |
| InverseMst.BuildNetwork | include/inverse_mst.hpp:46-103 | fails only when some non-tree edge's b is separated from its a, so in particular only when there is a non-tree edge; otherwise each non-tree edge's cycle path is a tree walk from b to a crossing no edge twice, u is n+1 on s -> t, 1 on s -> tree edge and non-tree edge -> t, n on the cycle arcs and 0 elsewhere, c is w_y - w_x on the cycle arcs and their mirrors and 0 elsewhere, and pi holds the least cycle slacks with pi[s] their minimum or INF |
| InverseMst.RaiseWeights | include/inverse_mst.hpp:105-142 | unless the flow converges no weight changes; on convergence the labels, predecessors and paths are a run history from the given potentials over u and c, and each edge carrying the sum of the augmenting paths has its weight raised by its final potential minus the source's, every other weight and every endpoint is unchanged; with the bypass forced the chain never breaks and no weight changes |
| InverseMst.Solve | include/inverse_mst.hpp:29-149 | endpoints never change; unless the run converges the edge list is unchanged; a missing tree path implies a non-tree edge whose b is separated from its a; otherwise each non-tree edge's cycle path is a tree walk from b to a crossing no edge twice, u and c are the network built over those paths (boundary arcs, n on the cycle arcs, w_y - w_x on them and their mirrors, 0 elsewhere) and the start potentials are the least cycle slacks; on convergence the labels, predecessors and paths are a run history from those potentials over u and c, and the new weight of each edge is its old weight plus (final potential - source's) exactly when it carries flow; when m == n-1 the run neither breaks nor misses a tree path and returns the weights unchanged |

## Left out

- Termination: the outer `for (;;)` and the search loop have no bound in the C++ code. The model bounds both by `fuel` and reports `FuelExhausted` when it runs out. Termination for some fuel is not proved.
- Optimality: that the adjusted weights make the tree a minimum spanning tree with minimal change is not proved. Nor is the cut condition (every tree edge on a non-tree edge's cycle weighs no more than it). The C++ code does not state these, and they depend on there being no negative reduced-cost cycle.
- Flow.MinCostFlow: the bypass keeps spare capacity until the last round, but that this makes `t` reachable in every round is proved only for the first round when the initial potentials force the bypass. In general a `PathBroken` outcome is not ruled out.
- Chains.PredPath: the walk is bounded by `nn` steps, and a missing predecessor (in the C++ code a wrapped `size_t` index) gives `None`; by Chains.PredPathExact that happens exactly when no predecessor chain from `t` to `s` exists. That such a chain exists after every finished search is not proved: it needs the argument that the predecessor arcs form a tree rooted at `s`, which rests on there being no negative reduced-cost cycle, and that argument is not part of this model.
- Flow.ShortestPaths: it states `d[s] <= 0`, not `d[s] == 0`. The equality needs the same argument (no negative reduced-cost cycle through `s`), which is not proved here.
- Flow.FlowRound: from the zero flow with the bypass forced it states that the round neither breaks nor continues; that the resulting flow is the unit flow on `s -> t` is derived one level up, from the run's sum of paths (Chains.BypassFlow, used by InverseMst.RaiseWeights).
- Network.BuildArcs: each cycle path is stated as a walk over tree edges from `b` to `a` that crosses no edge twice. When the first `n - 1` edges form a spanning tree that walk is the tree path of `i`'s fundamental cycle, but the model neither checks that they form a tree nor proves that uniqueness. The same holds for TreePaths.AddCycleArcs, Network.CycleArcs, InverseMst.BuildNetwork and InverseMst.Solve.
- History.RunHistory: it records each round's search outcome through the properties the search guarantees (ShortestOver), not the search's exact labels; labels with those properties need not be unique, so when several exist the history does not say which one the deque order produces.
- Undefined behaviour: reading `rib_id == -1` as an index, and following `p == -1`, stop the run with an outcome. The C++ code's behaviour there is undefined.
- The flow phase's partial update on a broken chain is not modelled. The model finds the whole chain first and leaves the flow untouched when it is broken. The C++ code would write along the chain before going out of bounds.
- Integer widths: `size_t` and `T` are unbounded `int`. Wrap-around and overflow of `INF`, labels and potentials are not modelled, and `p`'s initial `size_t(-1)` is the sentinel -1.
- The `f` matrix is allocated at the start of the flow phase rather than at the top of the function. It is zero until then in the C++ code too.
- The edge lookup is computed once per neighbour; the C++ code computes the same `std::find` twice, with the same result.
- The `WeightedGraph` container and `iterators.hpp` are not part of this model. The graph is its adjacency lists plus a weight lookup.
- The `float`, `double` and `long double` instantiations are left out (floating point).
- The JSON method layer (`methods/inverse_mst_method.cpp`), the HTTP tests and their Kruskal reference are left out.
- The commented-out debug printing is left out.
