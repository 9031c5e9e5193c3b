/**
 * The tree-path phase, run once per non-tree edge `i = (a, b)`: a
 * breadth-first traversal from `a` that may only cross tree edges and
 * records, for every vertex it reaches, the edge-list index of the tree
 * edge it arrived by; then a walk back from `b` to `a` along those
 * arrival edges that installs one constraint arc per tree edge on the way.
 */
module TreePaths {
  import opened Wrappers
  import opened Ribs
  import opened Traversal

  /**
   * The traversal from `a` (the C++ code's queue `q` with head `h` and tail
   * `tl`, and the arrival array `rib_id`). Each vertex is queued at most
   * once, so the tail never passes the `n` slots of the queue. A neighbour
   * whose edge-list entry is not a tree edge is skipped and the scan of the
   * remaining neighbours goes on, so every neighbour of a reached vertex
   * across a tree edge is reached too. The recorded arrival edge of `x` is
   * the first edge-list entry for the pair (parent, x).
   */
  method TreeBfs(g: Graph, ribs: seq<Rib>, a: nat) returns (ribId: array<int>, ghost pos: seq<nat>)
    requires WellFormed(g, ribs) && a < |g.adj|
    ensures fresh(ribId)
    ensures ArrivalTree(ribs, |g.adj|, a, ribId[..], pos)
    ensures FirstEntries(g, ribs, a, ribId[..])
    ensures forall v :: 0 <= v < |g.adj| && ribId[v] != -1 ==>
      ExpandedUpTo(g, ribs, ribId[..], v, |g.adj[v]|)
  {
    var n := |g.adj|;
    var q := new nat[n];
    var h, tl := 0, 0;
    q[tl] := a;
    tl := tl + 1;
    ribId := new int[n](_ => -1);
    CountMarkedNone(ribId[..]);
    CountMarkedSet(ribId[..], a, -2);
    ribId[a] := -2;
    pos := seq(n, _ => 0);
    while h < tl
      invariant BfsInv(g, ribs, a, ribId[..], pos, q[..], h, tl)
      decreases n - h
    {
      tl, pos := ScanNeighbours(g, ribs, a, ribId, pos, q, h, tl);
      h := h + 1;
    }
    forall v | 0 <= v < n && ribId[v] != -1
      ensures ExpandedUpTo(g, ribs, ribId[..], v, |g.adj[v]|)
    {
      assert q[pos[v]] == v;
    }
  }

  /**
   * The scan of the neighbours of `v = q[h]`, the vertex just taken from
   * the queue: each neighbour across a tree edge that is not yet reached is
   * marked with that edge and queued at the tail.
   */
  method ScanNeighbours(g: Graph, ribs: seq<Rib>, a: nat, ribId: array<int>, ghost pos: seq<nat>,
                        q: array<nat>, h: nat, tl: nat) returns (tl': nat, ghost pos': seq<nat>)
    requires BfsInv(g, ribs, a, ribId[..], pos, q[..], h, tl) && h < tl
    modifies ribId, q
    ensures BfsInv(g, ribs, a, ribId[..], pos', q[..], h + 1, tl') && tl <= tl'
    ensures q[h] == old(q[h]) && q[..tl] == old(q[..tl])
    ensures forall x :: 0 <= x < ribId.Length && old(ribId[x]) != -1 ==> ribId[x] == old(ribId[x])
    ensures forall x :: 0 <= x < ribId.Length && old(ribId[x]) == -1 && ribId[x] != -1 ==>
      x in g.adj[q[h]] && ribId[x] == FindRib(ribs, EdgeKey(g, q[h], x))
  {
    var v := q[h];
    tl', pos' := tl, pos;
    var e := 0;
    while e < |g.adj[v]|
      invariant v == q[h] && e <= |g.adj[v]| && tl <= tl'
      invariant BfsInv(g, ribs, a, ribId[..], pos', q[..], h, tl')
      invariant ExpandedUpTo(g, ribs, ribId[..], v, e)
      invariant q[..tl] == old(q[..tl])
      invariant forall x :: 0 <= x < ribId.Length && old(ribId[x]) != -1 ==> ribId[x] == old(ribId[x])
      invariant forall x :: 0 <= x < ribId.Length && old(ribId[x]) == -1 && ribId[x] != -1 ==>
        x in g.adj[v] && ribId[x] == FindRib(ribs, EdgeKey(g, v, x))
    {
      tl', pos' := VisitNeighbour(g, ribs, a, ribId, pos', q, h, tl', e);
      e := e + 1;
    }
    FinishScan(g, ribs, a, ribId[..], pos', q[..], h, tl');
  }

  /**
   * One step of the scan of `v = q[h]`: its `e`-th neighbour `j` is marked
   * and queued when the edge-list entry for the pair is a tree edge and `j`
   * is not yet reached, and is skipped otherwise.
   */
  method VisitNeighbour(g: Graph, ribs: seq<Rib>, a: nat, ribId: array<int>, ghost pos: seq<nat>,
                        q: array<nat>, h: nat, tl: nat, e: nat) returns (tl': nat, ghost pos': seq<nat>)
    requires BfsInv(g, ribs, a, ribId[..], pos, q[..], h, tl) && h < tl
    requires e < |g.adj[q[h]]| && ExpandedUpTo(g, ribs, ribId[..], q[h], e)
    modifies ribId, q
    ensures BfsInv(g, ribs, a, ribId[..], pos', q[..], h, tl') && tl <= tl'
    ensures q[h] == old(q[h]) && ExpandedUpTo(g, ribs, ribId[..], q[h], e + 1)
    ensures var j := g.adj[q[h]][e]; var r := FindRib(ribs, EdgeKey(g, q[h], j));
      if r < |g.adj| - 1 && old(ribId[j]) == -1 then
        && ribId[..] == old(ribId[..])[j := r]
        && tl < q.Length && q[..] == old(q[..])[tl := j] && tl' == tl + 1 && pos' == pos[j := tl]
      else ribId[..] == old(ribId[..]) && q[..] == old(q[..]) && tl' == tl && pos' == pos
    ensures q[..tl] == old(q[..tl])
    ensures forall x :: 0 <= x < ribId.Length && old(ribId[x]) != -1 ==> ribId[x] == old(ribId[x])
    ensures forall x :: 0 <= x < ribId.Length && old(ribId[x]) == -1 && ribId[x] != -1 ==>
      x == g.adj[q[h]][e] && ribId[x] == FindRib(ribs, EdgeKey(g, q[h], x))
  {
    var n := |g.adj|;
    var v := q[h];
    var j := g.adj[v][e];
    var r := FindRib(ribs, EdgeKey(g, v, j));
    if r >= n - 1 || ribId[j] != -1 {
      // a non-tree edge is skipped (this neighbour only); a reached vertex is left alone
      ExpandedStep(g, ribs, ribId[..], v, e);
      tl', pos' := tl, pos;
    } else {
      tl', pos' := MarkNeighbour(g, ribs, a, ribId, pos, q, h, tl, e, r);
    }
  }

  /**
   * The marking step of `VisitNeighbour`: the `e`-th neighbour `j` of
   * `q[h]`, not yet reached and joined to it by tree edge `r`, records `r`
   * as its arrival edge and goes to the tail of the queue.
   */
  method MarkNeighbour(g: Graph, ribs: seq<Rib>, a: nat, ribId: array<int>, ghost pos: seq<nat>,
                       q: array<nat>, h: nat, tl: nat, e: nat, r: nat) returns (tl': nat, ghost pos': seq<nat>)
    requires BfsInv(g, ribs, a, ribId[..], pos, q[..], h, tl) && h < tl
    requires e < |g.adj[q[h]]| && ExpandedUpTo(g, ribs, ribId[..], q[h], e)
    requires r == FindRib(ribs, EdgeKey(g, q[h], g.adj[q[h]][e])) && r < |g.adj| - 1
    requires ribId[g.adj[q[h]][e]] == -1
    modifies ribId, q
    ensures BfsInv(g, ribs, a, ribId[..], pos', q[..], h, tl') && q[h] == old(q[h])
    ensures ExpandedUpTo(g, ribs, ribId[..], q[h], e + 1)
    ensures var j := g.adj[q[h]][e];
      && ribId[..] == old(ribId[..])[j := r]
      && tl < q.Length && q[..] == old(q[..])[tl := j] && tl' == tl + 1 && pos' == pos[j := tl]
    ensures q[..tl] == old(q[..tl])
  {
    var j := g.adj[q[h]][e];
    MarkReached(g, ribs, a, ribId[..], pos, q[..], h, tl, q[h], e, r);
    ghost var marks, queue := ribId[..], q[..];
    ribId[j] := r;
    q[tl] := j;
    tl', pos' := tl + 1, pos[j := tl];
    assert ribId[..] == marks[j := r] && q[..] == queue[tl := j];
  }

  /** One constraint arc: capacity `n` and cost `cost` from tree-edge node `r` to non-tree-edge node `i`, cost `-cost` back. */
  method SetConstraintArc(u: array2<int>, c: array2<int>, r: nat, i: nat, n: nat, cost: int)
    requires u != c && r < u.Length0 && i < u.Length1 && r < c.Length0 && i < c.Length1
    requires i < c.Length0 && r < c.Length1 && r != i
    modifies u, c
    ensures u[r, i] == n && c[r, i] == cost && c[i, r] == -cost
    ensures forall x, y :: 0 <= x < u.Length0 && 0 <= y < u.Length1 && (x, y) != (r, i) ==>
      u[x, y] == old(u[x, y])
    ensures forall x, y :: 0 <= x < c.Length0 && 0 <= y < c.Length1 && (x, y) != (r, i) && (x, y) != (i, r) ==>
      c[x, y] == old(c[x, y])
  {
    u[r, i] := n;
    c[r, i] := cost;
    c[i, r] := -c[r, i];
  }

  /**
   * The arcs of non-tree edge `i` installed for the tree edges of `path` so
   * far, over the matrices `u0`, `c0` as they were before the walk: column
   * `i` of `u` and `c` and row `i` of `c` are set on `path`, the rest is as
   * it was.
   */
  ghost predicate ArcsAlong(ribs: seq<Rib>, n: nat, i: nat, path: seq<nat>, u: array2<int>, c: array2<int>,
                            u0: seq<seq<int>>, c0: seq<seq<int>>)
    reads u, c
  {
    && i < |ribs| && u.Length0 == u.Length1 == c.Length0 == c.Length1 == |u0| == |c0|
    && (forall x :: 0 <= x < u.Length0 ==> |u0[x]| == |c0[x]| == u.Length0)
    && (forall x, y :: 0 <= x < u.Length0 && 0 <= y < u.Length1 ==>
          u[x, y] == (if y == i && x in path then n else u0[x][y]))
    && (forall x, y :: 0 <= x < c.Length0 && 0 <= y < c.Length1 ==>
          c[x, y] == (if y == i && x in path && x < |ribs| then ribs[i].w - ribs[x].w
                      else if x == i && y in path && y < |ribs| then ribs[y].w - ribs[i].w
                      else c0[x][y]))
  }

  /** Installing the arcs of one more tree edge `r` of the walk for non-tree edge `i`. */
  method CrossTreeEdge(ribs: seq<Rib>, n: nat, i: nat, r: nat, u: array2<int>, c: array2<int>,
                       ghost path: seq<nat>, ghost u0: seq<seq<int>>, ghost c0: seq<seq<int>>)
    requires r < n - 1 <= i && u != c && i < u.Length0
    requires ArcsAlong(ribs, n, i, path, u, c, u0, c0)
    modifies u, c
    ensures ArcsAlong(ribs, n, i, path + [r], u, c, u0, c0)
  {
    SetConstraintArc(u, c, r, i, n, ribs[i].w - ribs[r].w);
  }

  /**
   * The walk back from `b` to `a` for non-tree edge `i = (a, b)`, where `b`
   * was reached: from the current vertex `v` it crosses `v`'s arrival edge
   * `r` to the far end, until it is back at `a`. The edges crossed form a
   * tree walk from `b` to `a`. For every tree edge `r` on it, it sets
   * capacity `u[r, i] = n`, cost `c[r, i] = w_i - w_r` and mirrored cost
   * `c[i, r] = -c[r, i]`; it writes only there.
   */
  method AddCycleArcs(ribs: seq<Rib>, n: nat, i: nat, ribId: seq<int>, ghost pos: seq<nat>,
                      u: array2<int>, c: array2<int>) returns (ghost path: seq<nat>, ghost verts: seq<nat>)
    requires n - 1 <= i < |ribs| && ribs[i].b < n
    requires ArrivalTree(ribs, n, ribs[i].a, ribId, pos)
    requires ribs[i].b == ribs[i].a || ribId[ribs[i].b] != -1
    requires u.Length0 == u.Length1 == c.Length0 == c.Length1 == |ribs| + 2 && u != c
    modifies u, c
    ensures WalkBack(ribs, n, ribId, pos, path, verts, ribs[i].b, ribs[i].a)
    ensures forall x :: 0 <= x < u.Length0 ==>
      u[x, i] == (if x in path then n else old(u[x, i]))
    ensures forall x :: 0 <= x < c.Length0 ==>
      c[x, i] == (if x in path then ribs[i].w - ribs[x].w else old(c[x, i]))
    ensures forall y :: 0 <= y < c.Length1 ==>
      c[i, y] == (if y in path then ribs[y].w - ribs[i].w else old(c[i, y]))
    ensures forall x, y :: 0 <= x < u.Length0 && 0 <= y < u.Length1 && y != i ==> u[x, y] == old(u[x, y])
    ensures forall x, y :: 0 <= x < c.Length0 && 0 <= y < c.Length1 && x != i && y != i ==>
      c[x, y] == old(c[x, y])
  {
    var a, b := ribs[i].a, ribs[i].b;
    path, verts := [], [b];
    ghost var u0, c0 := Table(u), Table(c);
    var v: nat := b;
    while v != a
      invariant v < n && (v == a || ribId[v] != -1)
      invariant WalkBack(ribs, n, ribId, pos, path, verts, b, v)
      invariant ArcsAlong(ribs, n, i, path, u, c, u0, c0)
      decreases pos[v]
    {
      assert Arrived(ribs, n, ribId, pos, v);
      var r: nat := ribId[v];
      var pv := Other(ribs[r], v);
      WalkBackStep(ribs, n, ribId, pos, path, verts, b, v);
      CrossTreeEdge(ribs, n, i, r, u, c, path, u0, c0);
      path, verts := path + [r], verts + [pv];
      v := pv;
    }
  }
}
