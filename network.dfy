/**
 * The flow network whose nodes are the edges of the graph: node `k < m`
 * stands for edge-list entry `k`, node `s = m` is the source and node
 * `t = m + 1` the sink. Capacities `u`, costs `c` and, later, flows `f` are
 * `(m + 2) x (m + 2)` matrices.
 */
module Network {
  import opened Ribs
  import opened Traversal
  import opened TreePaths

  /** Whether tree-edge node `x` has a constraint arc to non-tree-edge node `y` (x lies on y's tree walk). */
  ghost predicate OnCycle(n: nat, paths: seq<seq<nat>>, upto: nat, x: nat, y: nat)
  {
    x < n - 1 && n - 1 <= y < upto && y < |paths| && x in paths[y]
  }

  /**
   * The constraint arcs for the non-tree edges below `upto`: capacity `n`
   * exactly on the arcs tree edge -> non-tree edge of a cycle path,
   * cost `w_y - w_x` on those arcs and on their mirror images, zero
   * everywhere else, so the cost matrix is antisymmetric.
   */
  ghost predicate ConstraintArcs(ribs: seq<Rib>, n: nat, paths: seq<seq<nat>>, upto: nat, u: array2<int>, c: array2<int>)
    reads u, c
    requires u.Length0 == u.Length1 == c.Length0 == c.Length1 == |ribs| + 2
    requires n - 1 <= |ribs| && upto <= |ribs|
  {
    && (forall x, y :: 0 <= x < u.Length0 && 0 <= y < u.Length1 ==>
          u[x, y] == (if OnCycle(n, paths, upto, x, y) then n else 0))
    && (forall x, y :: 0 <= x < c.Length0 && 0 <= y < c.Length1 ==>
          c[x, y] == (if OnCycle(n, paths, upto, x, y) || OnCycle(n, paths, upto, y, x)
                      then ribs[y].w - ribs[x].w else 0))
  }

  /**
   * The tree-path and arc-construction phases: for every non-tree edge
   * `i = (a, b)`, the traversal from `a` over tree edges, then the walk back
   * from `b` that installs the arcs along `i`'s tree walk. It fails when
   * some `b` is not reached: the C++ code then reads the arrival record -1 as
   * an edge index and runs out of bounds.
   */
  method BuildArcs(g: Graph, ribs: seq<Rib>) returns (u: array2<int>, c: array2<int>, ok: bool, ghost paths: seq<seq<nat>>)
    requires WellFormed(g, ribs)
    ensures fresh(u) && fresh(c) && u != c
    ensures u.Length0 == u.Length1 == c.Length0 == c.Length1 == |ribs| + 2
    ensures |paths| == |ribs|
    ensures !ok ==> |g.adj| - 1 < |ribs|
    ensures !ok ==> exists j :: |g.adj| - 1 <= j < |ribs| && Separated(g, ribs, ribs[j].a, ribs[j].b)
    ensures ok ==> forall i :: |g.adj| - 1 <= i < |ribs| ==> IsTreeWalk(ribs, |g.adj|, paths[i], ribs[i].b, ribs[i].a)
    ensures ok ==> ConstraintArcs(ribs, |g.adj|, paths, |ribs|, u, c)
  {
    var n, m := |g.adj|, |ribs|;
    u := new int[m + 2, m + 2]((x, y) => 0);
    c := new int[m + 2, m + 2]((x, y) => 0);
    paths := seq(m, _ => []);
    for i := n - 1 to m
      invariant |paths| == m
      invariant forall k :: n - 1 <= k < i ==> IsTreeWalk(ribs, n, paths[k], ribs[k].b, ribs[k].a)
      invariant ConstraintArcs(ribs, n, paths, i, u, c)
    {
      var reached, path := CycleArcs(g, ribs, i, u, c);
      if !reached {
        return u, c, false, paths;
      }
      ExtendArcs(ribs, n, paths, i, path, u, c);
      paths := paths[i := path];
    }
    ok := true;
  }

  /**
   * One round of the loop over the non-tree edges: the traversal from `a`,
   * then the walk back from `b`. It stops, changing nothing, when `b` is not
   * reached: the walk back would start at an unreached vertex, and the
   * C++ code reads its arrival record -1 as an edge index, out of bounds.
   */
  method CycleArcs(g: Graph, ribs: seq<Rib>, i: nat, u: array2<int>, c: array2<int>)
    returns (reached: bool, ghost path: seq<nat>)
    requires WellFormed(g, ribs) && |g.adj| - 1 <= i < |ribs|
    requires u.Length0 == u.Length1 == c.Length0 == c.Length1 == |ribs| + 2 && u != c
    modifies u, c
    ensures reached ==> IsTreeWalk(ribs, |g.adj|, path, ribs[i].b, ribs[i].a)
    ensures !reached ==> Separated(g, ribs, ribs[i].a, ribs[i].b)
    ensures forall x :: 0 <= x < u.Length0 ==>
      u[x, i] == (if reached && x in path then |g.adj| else old(u[x, i]))
    ensures forall x :: 0 <= x < c.Length0 ==>
      c[x, i] == (if reached && x in path then ribs[i].w - ribs[x].w else old(c[x, i]))
    ensures forall y :: 0 <= y < c.Length1 ==>
      c[i, y] == (if reached && y in path then ribs[y].w - ribs[i].w else old(c[i, y]))
    ensures forall x, y :: 0 <= x < u.Length0 && 0 <= y < u.Length1 && y != i ==> u[x, y] == old(u[x, y])
    ensures forall x, y :: 0 <= x < c.Length0 && 0 <= y < c.Length1 && x != i && y != i ==>
      c[x, y] == old(c[x, y])
  {
    var ribId, pos := TreeBfs(g, ribs, ribs[i].a);
    reached := ribs[i].b == ribs[i].a || ribId[ribs[i].b] != -1;
    path := [];
    if !reached {
      ReachedSeparates(g, ribs, ribId[..], ribs[i].a, ribs[i].b);
    } else {
      ghost var verts;
      path, verts := AddCycleArcs(ribs, |g.adj|, i, ribId[..], pos, u, c);
    }
  }

  /** Installing the arcs of non-tree edge `i` extends the arc description from the edges below `i` to those below `i + 1`. */
  lemma ExtendArcs(ribs: seq<Rib>, n: nat, paths: seq<seq<nat>>, i: nat, path: seq<nat>, u: array2<int>, c: array2<int>)
    requires 0 < n && n - 1 <= i < |ribs| == |paths|
    requires u.Length0 == u.Length1 == c.Length0 == c.Length1 == |ribs| + 2
    requires forall k :: 0 <= k < |path| ==> path[k] < n - 1
    requires forall x :: 0 <= x < u.Length0 ==> u[x, i] == (if x in path then n else 0)
    requires forall x :: 0 <= x < c.Length0 ==> c[x, i] == (if x in path then ribs[i].w - ribs[x].w else 0)
    requires forall y :: 0 <= y < c.Length1 ==> c[i, y] == (if y in path then ribs[y].w - ribs[i].w else 0)
    requires forall x, y :: 0 <= x < u.Length0 && 0 <= y < u.Length1 && y != i ==>
      u[x, y] == (if OnCycle(n, paths, i, x, y) then n else 0)
    requires forall x, y :: 0 <= x < c.Length0 && 0 <= y < c.Length1 && x != i && y != i ==>
      c[x, y] == (if OnCycle(n, paths, i, x, y) || OnCycle(n, paths, i, y, x) then ribs[y].w - ribs[x].w else 0)
    ensures ConstraintArcs(ribs, n, paths[i := path], i + 1, u, c)
  {
    var paths' := paths[i := path];
    forall x, y | 0 <= x < |ribs| + 2 && 0 <= y < |ribs| + 2
      ensures OnCycle(n, paths', i + 1, x, y) == (if y == i then x in path else OnCycle(n, paths, i, x, y))
    {
    }
  }

  /**
   * The arcs at the boundary of the network: the bypass `s -> t` with
   * capacity `n + 1`, `s -> r` with capacity 1 for every tree edge `r`, and
   * `i -> t` with capacity 1 for every non-tree edge `i`; nothing else changes.
   */
  method SetBoundaryArcs(u: array2<int>, n: nat, m: nat)
    requires 0 < n && n - 1 <= m && u.Length0 == u.Length1 == m + 2
    modifies u
    ensures forall x, y :: 0 <= x < m + 2 && 0 <= y < m + 2 ==>
      u[x, y] == (if x == m && y == m + 1 then n + 1
                  else if x == m && y < n - 1 then 1
                  else if n - 1 <= x < m && y == m + 1 then 1
                  else old(u[x, y]))
  {
    var s, t := m, m + 1;
    u[s, t] := n + 1;
    for i := 0 to n - 1
      invariant forall x, y :: 0 <= x < m + 2 && 0 <= y < m + 2 ==>
        u[x, y] == (if x == m && y == m + 1 then n + 1
                    else if x == m && y < i then 1
                    else old(u[x, y]))
    {
      u[s, i] := 1;
    }
    for i := n - 1 to m
      invariant forall x, y :: 0 <= x < m + 2 && 0 <= y < m + 2 ==>
        u[x, y] == (if x == m && y == m + 1 then n + 1
                    else if x == m && y < n - 1 then 1
                    else if n - 1 <= x < i && y == m + 1 then 1
                    else old(u[x, y]))
    {
      u[i, t] := 1;
    }
  }

  /**
   * `p` is the least of INF and the slacks `w_j - w_r` over the non-tree
   * edges `j < hi` that tree edge `r` has a constraint arc to.
   */
  ghost predicate IsLeastSlack(ribs: seq<Rib>, n: nat, u: array2<int>, r: nat, hi: nat, p: int)
    reads u
    requires 0 < n && n - 1 <= hi <= |ribs| && u.Length0 == u.Length1 == |ribs| + 2 && r < n - 1
  {
    && p <= INF
    && (forall j :: n - 1 <= j < hi && u[r, j] != 0 ==> p <= ribs[j].w - ribs[r].w)
    && (p == INF || exists j :: n - 1 <= j < hi && u[r, j] != 0 && p == ribs[j].w - ribs[r].w)
  }

  /** The starting potential of tree edge `r`, folded over the non-tree edges below `hi` in order. */
  function SlackUpTo(ribs: seq<Rib>, n: nat, u: array2<int>, r: nat, hi: nat): int
    reads u
    requires 0 < n && n - 1 <= hi <= |ribs| && u.Length0 == u.Length1 == |ribs| + 2 && r < n - 1
    decreases hi
  {
    if hi == n - 1 then INF
    else if u[r, hi - 1] != 0 then Min(SlackUpTo(ribs, n, u, r, hi - 1), ribs[hi - 1].w - ribs[r].w)
    else SlackUpTo(ribs, n, u, r, hi - 1)
  }

  /** The fold is the least slack: no larger than any slack on an arc, and INF or one of them. */
  lemma {:induction false} SlackUpToIsLeast(ribs: seq<Rib>, n: nat, u: array2<int>, r: nat, hi: nat)
    requires 0 < n && n - 1 <= hi <= |ribs| && u.Length0 == u.Length1 == |ribs| + 2 && r < n - 1
    ensures IsLeastSlack(ribs, n, u, r, hi, SlackUpTo(ribs, n, u, r, hi))
    decreases hi
  {
    if hi > n - 1 {
      SlackUpToIsLeast(ribs, n, u, r, hi - 1);
    }
  }

  /** The scan over the non-tree edges that computes the starting potential of tree edge `r`. */
  method LeastSlack(ribs: seq<Rib>, n: nat, u: array2<int>, r: nat) returns (p: int)
    requires 0 < n && n - 1 <= |ribs| && u.Length0 == u.Length1 == |ribs| + 2 && r < n - 1
    ensures p == SlackUpTo(ribs, n, u, r, |ribs|)
    ensures IsLeastSlack(ribs, n, u, r, |ribs|, p)
  {
    p := INF;
    for j := n - 1 to |ribs|
      invariant p == SlackUpTo(ribs, n, u, r, j)
    {
      if u[r, j] != 0 {
        p := Min(p, ribs[j].w - ribs[r].w);
      }
    }
    SlackUpToIsLeast(ribs, n, u, r, |ribs|);
  }

  /**
   * The starting potentials: `pi[r]` is the least slack of tree edge `r`
   * (SlackUpToIsLeast);
   * `pi[s]` is the least of INF and all tree-edge potentials, so no larger
   * than any of them; every other node starts at 0.
   */
  method InitialPotentials(ribs: seq<Rib>, n: nat, u: array2<int>) returns (pi: array<int>)
    requires 0 < n && n - 1 <= |ribs| && u.Length0 == u.Length1 == |ribs| + 2
    ensures fresh(pi) && pi.Length == |ribs| + 2
    ensures forall r :: 0 <= r < n - 1 ==> pi[r] == SlackUpTo(ribs, n, u, r, |ribs|)
    ensures pi[|ribs|] <= INF && forall r :: 0 <= r < n - 1 ==> pi[|ribs|] <= pi[r]
    ensures pi[|ribs|] == INF || exists r :: 0 <= r < n - 1 && pi[|ribs|] == pi[r]
    ensures forall k :: n - 1 <= k < |ribs| || k == |ribs| + 1 ==> pi[k] == 0
  {
    var m := |ribs|;
    var s := m;
    pi := new int[m + 2](_ => 0);
    pi[s] := INF;
    ghost var slacks := seq(n - 1, r reads u requires 0 <= r < n - 1 => SlackUpTo(ribs, n, u, r, m));
    ghost var least: nat := 0;
    for i := 0 to n - 1
      invariant pi[s] <= INF && forall k :: i <= k < m + 2 && k != s ==> pi[k] == 0
      invariant forall r :: 0 <= r < i ==> pi[r] == slacks[r] && pi[s] <= pi[r]
      invariant pi[s] == INF || (least < i && pi[s] == pi[least])
    {
      var slack := LeastSlack(ribs, n, u, i);
      if slack < pi[s] {
        least := i;
      }
      pi[i] := slack;
      pi[s] := Min(pi[s], slack);
    }
  }

  /**
   * `p` is the least of INF and the slacks `w_j - w_r` over the non-tree
   * edges `j` whose cycle path `cycles[j]` crosses tree edge `r`.
   */
  ghost predicate IsCycleSlack(ribs: seq<Rib>, n: nat, cycles: seq<seq<nat>>, r: nat, p: int)
    requires 0 < n && n - 1 <= |ribs| && |cycles| == |ribs| && r < n - 1
  {
    && p <= INF
    && (forall j :: n - 1 <= j < |ribs| && r in cycles[j] ==> p <= ribs[j].w - ribs[r].w)
    && (p == INF || exists j :: n - 1 <= j < |ribs| && r in cycles[j] && p == ribs[j].w - ribs[r].w)
  }

  /**
   * The starting potentials over the cycle paths: each tree edge's is
   * its least cycle slack, the source's the least of INF and all of them,
   * every other node's 0.
   */
  ghost predicate StartPotentials(ribs: seq<Rib>, n: nat, cycles: seq<seq<nat>>, pi: seq<int>)
    requires 0 < n && n - 1 <= |ribs| && |cycles| == |ribs|
  {
    && |pi| == |ribs| + 2
    && (forall r :: 0 <= r < n - 1 ==> IsCycleSlack(ribs, n, cycles, r, pi[r]))
    && pi[|ribs|] <= INF && (forall r :: 0 <= r < n - 1 ==> pi[|ribs|] <= pi[r])
    && (pi[|ribs|] == INF || exists r :: 0 <= r < n - 1 && pi[|ribs|] == pi[r])
    && (forall k :: n - 1 <= k < |ribs| || k == |ribs| + 1 ==> pi[k] == 0)
  }

  /**
   * When the arcs out of tree edge `r` lead exactly to the non-tree edges
   * whose cycle path crosses it, its least slack over the capacities is its
   * least slack over the cycles.
   */
  lemma SlackOnCycles(ribs: seq<Rib>, n: nat, u: array2<int>, cycles: seq<seq<nat>>, r: nat, p: int)
    requires 0 < n && n - 1 <= |ribs| && u.Length0 == u.Length1 == |ribs| + 2 && |cycles| == |ribs| && r < n - 1
    requires forall j :: n - 1 <= j < |ribs| ==> (u[r, j] != 0 <==> r in cycles[j])
    requires IsLeastSlack(ribs, n, u, r, |ribs|, p)
    ensures IsCycleSlack(ribs, n, cycles, r, p)
  {
    if p != INF {
      var j :| n - 1 <= j < |ribs| && u[r, j] != 0 && p == ribs[j].w - ribs[r].w;
      assert r in cycles[j];
    }
  }

  /** The smaller of two values. */
  function Min(x: int, y: int): (r: int)
    ensures r <= x && r <= y && (r == x || r == y)
  {
    if y < x then y else x
  }
}
