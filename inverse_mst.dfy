/**
 * The inverse minimum-spanning-tree solver: the edge list holds the `n - 1`
 * edges of a designated spanning tree first and the non-tree edges after
 * them, and the solver changes weights in place so that the tree becomes a
 * minimum spanning tree. It builds the flow network of the cycles the
 * non-tree edges close over the tree, runs successive shortest paths over it, and writes the final
 * potentials back onto the edges that carry flow.
 */
module InverseMst {
  import opened Wrappers
  import opened Ribs
  import opened Traversal
  import opened TreePaths
  import opened Network
  import opened Chains
  import opened History
  import opened Flow

  /**
   * Edge-list entry `i` carries flow: a tree edge on its arc from the
   * source, a non-tree edge on its arc to the sink.
   */
  predicate Carries(f: array2<int>, n: nat, i: nat)
    reads f
    requires 0 < n && f.Length0 == f.Length1 && n - 1 <= f.Length0 - 2 && i < f.Length0 - 2
  {
    var m := f.Length0 - 2;
    if i < n - 1 then f[m, i] != 0 else f[i, m + 1] != 0
  }

  /**
   * The write-back: every edge-node potential is taken relative to the
   * source's, then each edge that carries flow has its weight raised by its
   * potential; endpoints, and the weights of all other edges, stay as they
   * are.
   */
  method WriteBack(ribs: array<Rib>, n: nat, f: array2<int>, pi: array<int>)
    requires 0 < n && n - 1 <= ribs.Length
    requires f.Length0 == f.Length1 == pi.Length == ribs.Length + 2
    modifies ribs, pi
    ensures forall i :: 0 <= i < ribs.Length ==> pi[i] == old(pi[i]) - old(pi[ribs.Length])
    ensures pi[ribs.Length] == old(pi[ribs.Length]) && pi[ribs.Length + 1] == old(pi[ribs.Length + 1])
    ensures forall i :: 0 <= i < ribs.Length ==>
      ribs[i] == old(ribs[i]).(w := old(ribs[i].w) + if Carries(f, n, i) then pi[i] else 0)
  {
    var m := ribs.Length;
    var s := m;
    for i := 0 to m
      modifies pi
      invariant pi[s] == old(pi[s]) && pi[s + 1] == old(pi[s + 1])
      invariant forall k :: 0 <= k < i ==> pi[k] == old(pi[k]) - old(pi[s])
      invariant forall k :: i <= k < m ==> pi[k] == old(pi[k])
    {
      pi[i] := pi[i] - pi[s];
    }
    for i := 0 to n - 1
      modifies ribs
      invariant forall k :: 0 <= k < i ==>
        ribs[k] == old(ribs[k]).(w := old(ribs[k].w) + if Carries(f, n, k) then pi[k] else 0)
      invariant forall k :: i <= k < m ==> ribs[k] == old(ribs[k])
    {
      if f[s, i] != 0 {
        ribs[i] := ribs[i].(w := ribs[i].w + pi[i]);
      }
    }
    for i := n - 1 to m
      modifies ribs
      invariant forall k :: 0 <= k < i ==>
        ribs[k] == old(ribs[k]).(w := old(ribs[k].w) + if Carries(f, n, k) then pi[k] else 0)
      invariant forall k :: i <= k < m ==> ribs[k] == old(ribs[k])
    {
      if f[i, s + 1] != 0 {
        ribs[i] := ribs[i].(w := ribs[i].w + pi[i]);
      }
    }
  }

  /**
   * With no non-tree edges the network has no constraint arcs: the bypass
   * is the only arc into the sink and, every tree potential being INF, its
   * reduced cost is -INF.
   */
  lemma TreeOnlyBypass(ribs: seq<Rib>, n: nat, u: array2<int>, c: array2<int>, pi: array<int>)
    requires 0 < n && n - 1 == |ribs| && u != c
    requires u.Length0 == u.Length1 == c.Length0 == c.Length1 == pi.Length == |ribs| + 2
    requires forall x, y :: 0 <= x < |ribs| + 2 && 0 <= y < |ribs| + 2 ==>
      c[x, y] == 0 && u[x, y] == (if x == |ribs| && y == |ribs| + 1 then n + 1 else if x == |ribs| && y < n - 1 then 1 else 0)
    requires pi[|ribs|] == INF || exists r :: 0 <= r < n - 1 && pi[|ribs|] == pi[r]
    requires forall r :: 0 <= r < n - 1 ==> pi[r] == INF
    requires pi[|ribs| + 1] == 0
    ensures BypassFirst(u, c, pi[..], |ribs|, |ribs| + 1)
  {
  }

  /** An edge carries flow in `f` exactly when it carries it in the snapshot `flow` of `f`. */
  lemma CarriesSnapshot(f: array2<int>, n: nat, flow: seq<seq<int>>)
    requires 0 < n && f.Length0 == f.Length1 && n + 1 <= f.Length0 && Table(f) == flow
    ensures forall i :: 0 <= i < f.Length0 - 2 ==> (Carries(f, n, i) <==> Carried(flow, n, i))
  {
    var m := f.Length0 - 2;
    forall i | 0 <= i < m
      ensures Carries(f, n, i) <==> Carried(flow, n, i)
    {
      assert f[m, i] == flow[m][i] && f[i, m + 1] == flow[i][m + 1];
    }
  }

  /**
   * The phases before the flow: the tree paths and constraint arcs of every
   * non-tree edge, the boundary arcs of source and sink, and the starting
   * potentials. It fails when some non-tree edge has no tree path. Otherwise
   * `cycles` are the tree walks found, the capacities and costs are those
   * of the network over them, the potentials are the starting ones, and
   * with no non-tree edge the bypass comes first.
   */
  method BuildNetwork(g: Graph, ribs: seq<Rib>)
    returns (u: array2<int>, c: array2<int>, pi: array<int>, ok: bool, ghost cycles: seq<seq<nat>>)
    requires WellFormed(g, ribs)
    ensures fresh(u) && fresh(c) && fresh(pi) && u != c
    ensures u.Length0 == u.Length1 == c.Length0 == c.Length1 == pi.Length == |ribs| + 2
    ensures !ok ==> |g.adj| - 1 < |ribs|
    ensures !ok ==> exists j :: |g.adj| - 1 <= j < |ribs| && Separated(g, ribs, ribs[j].a, ribs[j].b)
    ensures ok ==>
      && |cycles| == |ribs|
      && (forall i :: |g.adj| - 1 <= i < |ribs| ==> IsTreeWalk(ribs, |g.adj|, cycles[i], ribs[i].b, ribs[i].a))
      && StartPotentials(ribs, |g.adj|, cycles, pi[..])
    ensures ok ==> forall x, y :: 0 <= x < |ribs| + 2 && 0 <= y < |ribs| + 2 ==>
      u[x, y] == (if x == |ribs| && y == |ribs| + 1 then |g.adj| + 1
                  else if x == |ribs| && y < |g.adj| - 1 then 1
                  else if |g.adj| - 1 <= x < |ribs| && y == |ribs| + 1 then 1
                  else if OnCycle(|g.adj|, cycles, |ribs|, x, y) then |g.adj| else 0)
    ensures ok ==> forall x, y :: 0 <= x < |ribs| + 2 && 0 <= y < |ribs| + 2 ==>
      c[x, y] == (if OnCycle(|g.adj|, cycles, |ribs|, x, y) || OnCycle(|g.adj|, cycles, |ribs|, y, x)
                  then ribs[y].w - ribs[x].w else 0)
    ensures ok && |g.adj| - 1 == |ribs| ==> BypassFirst(u, c, pi[..], |ribs|, |ribs| + 1)
  {
    var n, m := |g.adj|, |ribs|;
    u, c, ok, cycles := BuildArcs(g, ribs);
    if !ok {
      pi := new int[m + 2];
      return;
    }
    assert forall r, j :: 0 <= r < n - 1 && n - 1 <= j < m ==> (u[r, j] != 0 <==> r in cycles[j]);
    SetBoundaryArcs(u, n, m);
    pi := InitialPotentials(ribs, n, u);
    forall r | 0 <= r < n - 1
      ensures IsCycleSlack(ribs, n, cycles, r, pi[r])
    {
      SlackUpToIsLeast(ribs, n, u, r, m);
      SlackOnCycles(ribs, n, u, cycles, r, pi[r]);
    }
    if n - 1 == m {
      TreeOnlyBypass(ribs, n, u, c, pi);
    }
  }

  /**
   * In the flow `flow` over `m + 2` nodes, edge-list entry `i` carries flow:
   * a tree edge on its arc from the source, a non-tree edge on its arc to
   * the sink.
   */
  ghost predicate Carried(flow: seq<seq<int>>, n: nat, i: nat)
    requires forall x :: 0 <= x < |flow| ==> |flow[x]| == |flow|
    requires i + 2 < |flow|
  {
    var m := |flow| - 2;
    if i < n - 1 then flow[m][i] != 0 else flow[i][m + 1] != 0
  }

  /**
   * The flow phase and the write-back over a built network with potentials
   * `pi`: on convergence `labels` and `paths` are the labels and augmenting
   * paths of the rounds, and each edge carrying the sum of the paths has its
   * weight raised by its final potential taken relative to the source's;
   * otherwise no weight changes. When the bypass comes first nothing changes
   * and the flow never breaks off.
   */
  method RaiseWeights(ribs: array<Rib>, n: nat, u: array2<int>, c: array2<int>, pi: array<int>, fuel: nat)
    returns (outcome: Outcome, ghost labels: seq<seq<int>>, ghost preds: seq<seq<int>>, ghost paths: seq<seq<nat>>)
    requires 0 < n && n - 1 <= ribs.Length && u != c
    requires u.Length0 == u.Length1 == c.Length0 == c.Length1 == pi.Length == ribs.Length + 2
    requires forall x, y :: 0 <= x < pi.Length && 0 <= y < pi.Length ==> 0 <= u[x, y]
    modifies ribs, pi
    ensures outcome != TreePathMissing
    ensures outcome != Converged ==> ribs[..] == old(ribs[..])
    ensures BypassFirst(u, c, old(pi[..]), ribs.Length, ribs.Length + 1) ==>
      outcome != PathBroken && ribs[..] == old(ribs[..])
    ensures outcome == Converged ==>
      && |labels| == |paths| && BypassRun(paths, ribs.Length + 1, ribs.Length, ribs.Length + 2, true)
      && RunHistory(u, c, old(pi[..]), ribs.Length, ribs.Length + 1, labels, preds, paths)
      && forall i :: 0 <= i < ribs.Length ==>
           var final := Potentials(old(pi[..]), labels);
           ribs[i] == old(ribs[i]).(w := old(ribs[i].w) +
             if Carried(FlowOf(paths, ribs.Length + 2), n, i) then final[i] - final[ribs.Length] else 0)
  {
    var m := ribs.Length;
    var s, t := m, m + 1;
    ghost var bypass := BypassFirst(u, c, pi[..], s, t);
    var f;
    f, outcome, labels, preds, paths := MinCostFlow(u, c, pi, s, t, fuel);
    if outcome != Converged {
      return;
    }
    if bypass {
      BypassFlow(f, s, t);
    }
    CarriesSnapshot(f, n, FlowOf(paths, m + 2));
    WriteBack(ribs, n, f, pi);
  }

  /**
   * The whole solver on the graph container `g` and the edge list `ribs`.
   * `fuel` bounds the rounds of the flow phase and the steps of each
   * search. Endpoints never change; unless the run converges no weight
   * changes either; and an edge list that is only the spanning tree comes
   * back unchanged, since then the first path found is the bypass.
   * Otherwise `cycles` are the tree walks from `b` to `a` of the non-tree
   * edges, each crossing no edge twice, `u` and `c` the network over them,
   * `pi0` the starting potentials over them, and on convergence `labels`,
   * `preds` and `paths` the run's history from `pi0`: each edge that carries
   * the sum of the paths has its weight raised by its final potential taken
   * relative to the source's.
   */
  method Solve(g: Graph, ribs: array<Rib>, fuel: nat)
    returns (outcome: Outcome, ghost cycles: seq<seq<nat>>, ghost u: array2<int>, ghost c: array2<int>,
             ghost pi0: seq<int>, ghost labels: seq<seq<int>>, ghost preds: seq<seq<int>>,
             ghost paths: seq<seq<nat>>)
    requires WellFormed(g, ribs[..])
    modifies ribs
    ensures forall i :: 0 <= i < ribs.Length ==> ribs[i].a == old(ribs[i].a) && ribs[i].b == old(ribs[i].b)
    ensures outcome != Converged ==> ribs[..] == old(ribs[..])
    ensures |g.adj| - 1 == ribs.Length ==>
      outcome != TreePathMissing && outcome != PathBroken && ribs[..] == old(ribs[..])
    ensures outcome == TreePathMissing ==> |g.adj| - 1 < ribs.Length
    ensures outcome == TreePathMissing ==>
      exists j :: |g.adj| - 1 <= j < ribs.Length && Separated(g, old(ribs[..]), old(ribs[j].a), old(ribs[j].b))
    ensures outcome != TreePathMissing ==>
      && |cycles| == ribs.Length
      && (forall i :: |g.adj| - 1 <= i < ribs.Length ==>
            IsTreeWalk(old(ribs[..]), |g.adj|, cycles[i], old(ribs[i].b), old(ribs[i].a)))
      && StartPotentials(old(ribs[..]), |g.adj|, cycles, pi0)
      && u.Length0 == u.Length1 == c.Length0 == c.Length1 == ribs.Length + 2
      && (forall x, y :: 0 <= x < ribs.Length + 2 && 0 <= y < ribs.Length + 2 ==>
            u[x, y] == (if x == ribs.Length && y == ribs.Length + 1 then |g.adj| + 1
                        else if x == ribs.Length && y < |g.adj| - 1 then 1
                        else if |g.adj| - 1 <= x < ribs.Length && y == ribs.Length + 1 then 1
                        else if OnCycle(|g.adj|, cycles, ribs.Length, x, y) then |g.adj| else 0))
      && (forall x, y :: 0 <= x < ribs.Length + 2 && 0 <= y < ribs.Length + 2 ==>
            c[x, y] == (if OnCycle(|g.adj|, cycles, ribs.Length, x, y) || OnCycle(|g.adj|, cycles, ribs.Length, y, x)
                        then old(ribs[y].w) - old(ribs[x].w) else 0))
    ensures outcome == Converged ==>
      && |labels| == |paths| && BypassRun(paths, ribs.Length + 1, ribs.Length, ribs.Length + 2, true)
      && RunHistory(u, c, pi0, ribs.Length, ribs.Length + 1, labels, preds, paths)
      && forall i :: 0 <= i < ribs.Length ==>
           var final := Potentials(pi0, labels);
           ribs[i] == old(ribs[i]).(w := old(ribs[i].w) +
             if Carried(FlowOf(paths, ribs.Length + 2), |g.adj|, i) then final[i] - final[ribs.Length] else 0)
  {
    var n := |g.adj|;
    var cap, cost, pi, ok;
    cap, cost, pi, ok, cycles := BuildNetwork(g, ribs[..]);
    u, c := cap, cost;
    if !ok {
      return TreePathMissing, cycles, u, c, [], [], [], [];
    }
    pi0 := pi[..];
    outcome, labels, preds, paths := RaiseWeights(ribs, n, cap, cost, pi, fuel);
  }
}
