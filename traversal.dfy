/**
 * The state of the tree-path traversal, stated over plain sequences: the
 * arrival records `ribId`, the queue `q` with its head `h` and tail `tl`,
 * and the ghost queue positions `pos`. Each lemma is one step of the
 * traversal and shows that it keeps the traversal invariant.
 */
module Traversal {
  import opened Wrappers
  import opened Ribs

  /** The vertex a reached vertex `x` was reached from: the far end of its arrival edge. */
  function Parent(ribs: seq<Rib>, ribId: seq<int>, x: nat): nat
    requires x < |ribId| && 0 <= ribId[x] < |ribs|
  {
    Other(ribs[ribId[x]], x)
  }

  /**
   * The arrival record of one vertex `x`: the index of a tree edge touching
   * `x` whose far end was reached earlier, that is sits at a smaller queue
   * position `pos`.
   */
  ghost predicate Arrived(ribs: seq<Rib>, n: nat, ribId: seq<int>, pos: seq<nat>, x: nat)
    requires n - 1 <= |ribs| && |ribId| == n && |pos| == n && x < n
  {
    && 0 <= ribId[x] < n - 1
    && Incident(ribs[ribId[x]], x)
    && Parent(ribs, ribId, x) < n
    && ribId[Parent(ribs, ribId, x)] != -1
    && pos[Parent(ribs, ribId, x)] < pos[x]
  }

  /**
   * The shape of the arrival records left by the traversal from `a`:
   * `a` is marked -2, every other vertex is -1 (not reached) or has a
   * well-formed arrival record.
   */
  ghost predicate ArrivalTree(ribs: seq<Rib>, n: nat, a: nat, ribId: seq<int>, pos: seq<nat>)
  {
    && 0 < n && a < n && n - 1 <= |ribs| && |ribId| == n && |pos| == n
    && ribId[a] == -2
    && forall x :: 0 <= x < n && x != a && ribId[x] != -1 ==> Arrived(ribs, n, ribId, pos, x)
  }

  /**
   * Crossing the edges of `path` one after another starting at `v`: the
   * vertex reached, or None when an edge does not touch the current vertex.
   */
  function WalkEnd(ribs: seq<Rib>, path: seq<nat>, v: nat): Option<nat>
    requires forall k :: 0 <= k < |path| ==> path[k] < |ribs|
  {
    if path == [] then Some(v)
    else if !Incident(ribs[path[0]], v) then None
    else WalkEnd(ribs, path[1..], Other(ribs[path[0]], v))
  }

  /**
   * `path` is a walk over tree edges (indices below `n - 1`) from `from` to
   * `to` that crosses no edge twice. When the tree edges form a spanning
   * tree, that is the tree path between the two vertices.
   */
  ghost predicate IsTreeWalk(ribs: seq<Rib>, n: nat, path: seq<nat>, from: nat, to: nat)
  {
    && n - 1 <= |ribs|
    && (forall k :: 0 <= k < |path| ==> path[k] < n - 1)
    && (forall j, k :: 0 <= j < k < |path| ==> path[j] != path[k])
    && WalkEnd(ribs, path, from) == Some(to)
  }

  /**
   * `path` is the walk back along the arrival records through the vertices
   * `verts`: each edge is the arrival edge of the vertex before it, which it
   * touches, and leads to that vertex's parent.
   */
  ghost predicate ArrivalChain(ribs: seq<Rib>, n: nat, ribId: seq<int>, path: seq<nat>, verts: seq<nat>)
  {
    && n - 1 <= |ribs| && |ribId| == n && |verts| == |path| + 1
    && forall k :: 0 <= k < |path| ==>
         && verts[k] < n && 0 <= ribId[verts[k]] < n - 1 && path[k] == ribId[verts[k]]
         && Incident(ribs[path[k]], verts[k]) && verts[k + 1] == Parent(ribs, ribId, verts[k])
  }

  /** Crossing one more edge `r` that touches the end `v` of a walk moves the end to `r`'s far side. */
  lemma {:induction false} WalkEndSnoc(ribs: seq<Rib>, path: seq<nat>, from: nat, v: nat, r: nat)
    requires forall k :: 0 <= k < |path| ==> path[k] < |ribs|
    requires WalkEnd(ribs, path, from) == Some(v) && r < |ribs| && Incident(ribs[r], v)
    ensures WalkEnd(ribs, path + [r], from) == Some(Other(ribs[r], v))
  {
    if path != [] {
      assert (path + [r])[1..] == path[1..] + [r];
      WalkEndSnoc(ribs, path[1..], Other(ribs[path[0]], from), v, r);
    }
  }

  /**
   * The walk back from `b` so far, now at `v`: a tree walk along the arrival
   * records through `verts`, with `v` earlier in the queue than every vertex
   * visited before it.
   */
  ghost predicate WalkBack(ribs: seq<Rib>, n: nat, ribId: seq<int>, pos: seq<nat>, path: seq<nat>, verts: seq<nat>,
                           b: nat, v: nat)
  {
    && IsTreeWalk(ribs, n, path, b, v)
    && ArrivalChain(ribs, n, ribId, path, verts) && verts[0] == b && verts[|path|] == v
    && |pos| == n && v < n
    && forall k :: 0 <= k < |path| ==> pos[v] < pos[verts[k]]
  }

  /**
   * One step of the walk back: crossing the arrival edge of the current
   * vertex `v` to its parent keeps it a walk back. The edge is new to the
   * walk (ArrivalEdgeFresh).
   */
  lemma WalkBackStep(ribs: seq<Rib>, n: nat, ribId: seq<int>, pos: seq<nat>, path: seq<nat>, verts: seq<nat>,
                     b: nat, v: nat)
    requires WalkBack(ribs, n, ribId, pos, path, verts, b, v) && Arrived(ribs, n, ribId, pos, v)
    ensures WalkBack(ribs, n, ribId, pos, path + [ribId[v]], verts + [Parent(ribs, ribId, v)], b, Parent(ribs, ribId, v))
  {
    var r, w := ribId[v], Parent(ribs, ribId, v);
    ArrivalEdgeFresh(ribs, n, ribId, pos, path, verts, b, v);
    TreeWalkSnoc(ribs, n, path, b, v, r);
    ArrivalChainSnoc(ribs, n, ribId, path, verts, v);
  }

  /** A tree walk from `b` to `v` extended by a tree edge `r` at `v`, not crossed before, is a tree walk to `r`'s far side. */
  lemma TreeWalkSnoc(ribs: seq<Rib>, n: nat, path: seq<nat>, b: nat, v: nat, r: nat)
    requires IsTreeWalk(ribs, n, path, b, v) && r < n - 1 && Incident(ribs[r], v)
    requires forall k :: 0 <= k < |path| ==> path[k] != r
    ensures IsTreeWalk(ribs, n, path + [r], b, Other(ribs[r], v))
  {
    WalkEndSnoc(ribs, path, b, v, r);
  }

  /** Crossing the arrival edge of the walk's last vertex `v` extends the arrival chain by it and by `v`'s parent. */
  lemma ArrivalChainSnoc(ribs: seq<Rib>, n: nat, ribId: seq<int>, path: seq<nat>, verts: seq<nat>, v: nat)
    requires ArrivalChain(ribs, n, ribId, path, verts) && verts[|path|] == v && v < n
    requires 0 <= ribId[v] < n - 1 && Incident(ribs[ribId[v]], v)
    ensures ArrivalChain(ribs, n, ribId, path + [ribId[v]], verts + [Parent(ribs, ribId, v)])
  {
  }

  /**
   * The arrival edge of the current vertex `v` is not yet on the walk: its
   * far end sits earlier in the queue than every vertex visited so far, so
   * it touches none of the edges crossed.
   */
  lemma ArrivalEdgeFresh(ribs: seq<Rib>, n: nat, ribId: seq<int>, pos: seq<nat>, path: seq<nat>, verts: seq<nat>,
                         b: nat, v: nat)
    requires WalkBack(ribs, n, ribId, pos, path, verts, b, v) && Arrived(ribs, n, ribId, pos, v)
    ensures forall k :: 0 <= k < |path| ==> path[k] != ribId[v]
  {
    var r, w := ribId[v], Parent(ribs, ribId, v);
    assert Incident(ribs[r], w);
    forall k | 0 <= k < |path|
      ensures path[k] != r
    {
      assert k + 1 < |path| ==> pos[v] < pos[verts[k + 1]];
      assert w != verts[k] && w != verts[k + 1];
      assert !Incident(ribs[path[k]], w);
    }
  }

  /** The first `upto` neighbours of `v` that lie across a tree edge are reached. */
  ghost predicate ExpandedUpTo(g: Graph, ribs: seq<Rib>, ribId: seq<int>, v: nat, upto: nat)
    requires WellFormed(g, ribs) && |ribId| == |g.adj| && v < |g.adj| && upto <= |g.adj[v]|
  {
    forall e :: 0 <= e < upto && FindRib(ribs, EdgeKey(g, v, g.adj[v][e])) < |g.adj| - 1 ==>
      ribId[g.adj[v][e]] != -1
  }

  /** The queue `q[..tl]` holds every reached vertex exactly once, at its position `pos`. */
  ghost predicate QueueMatches(ribId: seq<int>, pos: seq<nat>, q: seq<nat>, tl: nat)
  {
    && |pos| == |ribId| && tl <= |q|
    && (forall k :: 0 <= k < tl ==> q[k] < |ribId| && ribId[q[k]] != -1 && pos[q[k]] == k)
    && (forall x :: 0 <= x < |ribId| && ribId[x] != -1 ==> pos[x] < tl && q[pos[x]] == x)
  }

  /** Every reached vertex other than `a` records the first edge-list entry for the pair (parent, vertex). */
  ghost predicate FirstEntries(g: Graph, ribs: seq<Rib>, a: nat, ribId: seq<int>)
  {
    forall x :: 0 <= x < |ribId| && x != a && ribId[x] != -1 ==>
      0 <= ribId[x] < |ribs| && ribId[x] == FindRib(ribs, EdgeKey(g, Parent(ribs, ribId, x), x))
  }

  /** The traversal's state once the first `h` queued vertices have been scanned in full. */
  ghost predicate BfsInv(g: Graph, ribs: seq<Rib>, a: nat, ribId: seq<int>, pos: seq<nat>, q: seq<nat>, h: nat, tl: nat)
  {
    && WellFormed(g, ribs) && a < |g.adj| && |ribId| == |g.adj| && |q| == |g.adj|
    && h <= tl <= |g.adj|
    && tl == CountMarked(ribId)
    && QueueMatches(ribId, pos, q, tl)
    && ArrivalTree(ribs, |g.adj|, a, ribId, pos)
    && FirstEntries(g, ribs, a, ribId)
    && forall k :: 0 <= k < h ==> ExpandedUpTo(g, ribs, ribId, q[k], |g.adj[q[k]]|)
  }

  /** Once all neighbours of the head are scanned, the head moves on. */
  lemma FinishScan(g: Graph, ribs: seq<Rib>, a: nat, ribId: seq<int>, pos: seq<nat>, q: seq<nat>, h: nat, tl: nat)
    requires BfsInv(g, ribs, a, ribId, pos, q, h, tl) && h < tl
    requires ExpandedUpTo(g, ribs, ribId, q[h], |g.adj[q[h]]|)
    ensures BfsInv(g, ribs, a, ribId, pos, q, h + 1, tl)
  {
  }

  /** Marks only ever appear, so a scanned vertex stays scanned. */
  lemma ExpandedGrows(g: Graph, ribs: seq<Rib>, ribId: seq<int>, ribId': seq<int>, v: nat, upto: nat)
    requires WellFormed(g, ribs) && |ribId| == |ribId'| == |g.adj| && v < |g.adj| && upto <= |g.adj[v]|
    requires forall x :: 0 <= x < |ribId| && ribId[x] != -1 ==> ribId'[x] != -1
    requires ExpandedUpTo(g, ribs, ribId, v, upto)
    ensures ExpandedUpTo(g, ribs, ribId', v, upto)
  {
  }

  /** A neighbour across a non-tree edge, or one already reached, needs nothing more. */
  lemma ExpandedStep(g: Graph, ribs: seq<Rib>, ribId: seq<int>, v: nat, e: nat)
    requires WellFormed(g, ribs) && |ribId| == |g.adj| && v < |g.adj| && e < |g.adj[v]|
    requires ExpandedUpTo(g, ribs, ribId, v, e)
    requires FindRib(ribs, EdgeKey(g, v, g.adj[v][e])) >= |g.adj| - 1 || ribId[g.adj[v][e]] != -1
    ensures ExpandedUpTo(g, ribs, ribId, v, e + 1)
  {
  }

  /**
   * Recording `j`, the `e`-th neighbour of `v`, as reached across tree edge
   * `r` and queueing it keeps the traversal's state well formed.
   */
  lemma MarkReached(g: Graph, ribs: seq<Rib>, a: nat, ribId: seq<int>, pos: seq<nat>, q: seq<nat>,
                    h: nat, tl: nat, v: nat, e: nat, r: nat)
    requires BfsInv(g, ribs, a, ribId, pos, q, h, tl)
    requires h < tl && v == q[h] && e < |g.adj[v]| && ExpandedUpTo(g, ribs, ribId, v, e)
    requires r == FindRib(ribs, EdgeKey(g, v, g.adj[v][e])) && r < |g.adj| - 1
    requires ribId[g.adj[v][e]] == -1
    ensures tl < |g.adj|
    ensures BfsInv(g, ribs, a, ribId[g.adj[v][e] := r], pos[g.adj[v][e] := tl], q[tl := g.adj[v][e]], h, tl + 1)
    ensures ExpandedUpTo(g, ribs, ribId[g.adj[v][e] := r], v, e + 1)
  {
    var j := g.adj[v][e];
    CountMarkedSet(ribId, j, r);
    assert CountMarked(ribId[j := r]) <= |ribId[j := r]|;
    assert tl < |q|;
    var ribId', pos', q' := ribId[j := r], pos[j := tl], q[tl := j];
    MarkKeepsArrival(g, ribs, a, ribId, pos, v, j, r, tl, ribId', pos');
    MarkKeepsFirstEntries(g, ribs, a, ribId, v, j, r, ribId');
    MarkKeepsQueue(ribId, pos, q, tl, j, r, ribId', pos', q');
    MarkKeepsExpanded(g, ribs, ribId, q, h, tl, v, e, r, ribId', q');
  }

  /** Marking the `e`-th neighbour of `v` reached keeps every scanned vertex expanded, and `v` expanded one neighbour further. */
  lemma MarkKeepsExpanded(g: Graph, ribs: seq<Rib>, ribId: seq<int>, q: seq<nat>, h: nat, tl: nat,
                          v: nat, e: nat, r: int, ribId': seq<int>, q': seq<nat>)
    requires WellFormed(g, ribs) && |ribId| == |q| == |g.adj| && h <= tl < |q|
    requires forall k :: 0 <= k < h ==> q[k] < |g.adj| && ExpandedUpTo(g, ribs, ribId, q[k], |g.adj[q[k]]|)
    requires v < |g.adj| && e < |g.adj[v]| && ExpandedUpTo(g, ribs, ribId, v, e) && r != -1
    requires ribId' == ribId[g.adj[v][e] := r] && q' == q[tl := g.adj[v][e]]
    ensures forall k :: 0 <= k < h ==> ExpandedUpTo(g, ribs, ribId', q'[k], |g.adj[q'[k]]|)
    ensures ExpandedUpTo(g, ribs, ribId', v, e + 1)
  {
    forall k | 0 <= k < h
      ensures ExpandedUpTo(g, ribs, ribId', q'[k], |g.adj[q'[k]]|)
    {
      ExpandedGrows(g, ribs, ribId, ribId', q[k], |g.adj[q[k]]|);
    }
    ExpandedGrows(g, ribs, ribId, ribId', v, e);
  }

  /** The arrival record of `j`, reached from `v` across `r`, is well formed, and no other record changes. */
  lemma MarkKeepsArrival(g: Graph, ribs: seq<Rib>, a: nat, ribId: seq<int>, pos: seq<nat>,
                         v: nat, j: nat, r: nat, tl: nat, ribId': seq<int>, pos': seq<nat>)
    requires WellFormed(g, ribs) && ArrivalTree(ribs, |g.adj|, a, ribId, pos)
    requires v < |g.adj| && j < |g.adj| && ribId[v] != -1 && ribId[j] == -1 && pos[v] < tl
    requires r == FindRib(ribs, EdgeKey(g, v, j)) && r < |g.adj| - 1
    requires ribId' == ribId[j := r] && pos' == pos[j := tl]
    ensures ArrivalTree(ribs, |g.adj|, a, ribId', pos')
    ensures Parent(ribs, ribId', j) == v
  {
    var n := |g.adj|;
    assert ribs[r] == EdgeKey(g, v, j);
    assert v != j;
    assert Parent(ribs, ribId', j) == v;
    forall x | 0 <= x < n && x != a && ribId'[x] != -1
      ensures Arrived(ribs, n, ribId', pos', x)
    {
      if x != j {
        assert Arrived(ribs, n, ribId, pos, x);
        assert Parent(ribs, ribId', x) == Parent(ribs, ribId, x);
      }
    }
  }

  /** The new arrival record of `j` is the first edge-list entry for the pair (v, j). */
  lemma MarkKeepsFirstEntries(g: Graph, ribs: seq<Rib>, a: nat, ribId: seq<int>,
                              v: nat, j: nat, r: nat, ribId': seq<int>)
    requires WellFormed(g, ribs) && |ribId| == |g.adj| && FirstEntries(g, ribs, a, ribId)
    requires v < |g.adj| && j < |g.adj| && ribId[v] != -1 && ribId[j] == -1 && j != a
    requires r == FindRib(ribs, EdgeKey(g, v, j)) && r < |g.adj| - 1
    requires ribId' == ribId[j := r]
    ensures FirstEntries(g, ribs, a, ribId')
  {
    assert ribs[r] == EdgeKey(g, v, j);
    assert v != j;
    assert Parent(ribs, ribId', j) == v;
    forall x | 0 <= x < |ribId'| && x != a && ribId'[x] != -1
      ensures 0 <= ribId'[x] < |ribs| && ribId'[x] == FindRib(ribs, EdgeKey(g, Parent(ribs, ribId', x), x))
    {
      if x != j {
        assert Parent(ribs, ribId', x) == Parent(ribs, ribId, x);
      }
    }
  }

  /** Queueing the newly reached `j` at the tail keeps the queue and the positions in step. */
  lemma MarkKeepsQueue(ribId: seq<int>, pos: seq<nat>, q: seq<nat>, tl: nat, j: nat, r: int,
                       ribId': seq<int>, pos': seq<nat>, q': seq<nat>)
    requires QueueMatches(ribId, pos, q, tl) && tl < |q| && j < |ribId| && ribId[j] == -1 && r != -1
    requires ribId' == ribId[j := r] && pos' == pos[j := tl] && q' == q[tl := j]
    ensures QueueMatches(ribId', pos', q', tl + 1)
  {
  }

  /**
   * The vertex set `R` is closed under the traversal's step: every
   * neighbour of a vertex in `R` whose edge-list lookup is a tree edge is
   * in `R` too.
   */
  ghost predicate TreeClosed(g: Graph, ribs: seq<Rib>, R: set<nat>)
  {
    forall v, e ::
      v in R && v < |g.adj| && 0 <= e < |g.adj[v]| && FindRib(ribs, EdgeKey(g, v, g.adj[v][e])) < |g.adj| - 1
      ==> g.adj[v][e] in R
  }

  /** No sequence of the traversal's steps leads from `a` to `b`: some closed vertex set holds `a` but not `b`. */
  ghost predicate Separated(g: Graph, ribs: seq<Rib>, a: nat, b: nat)
  {
    exists R: set<nat> :: a in R && b !in R && TreeClosed(g, ribs, R)
  }

  /**
   * When the traversal from `a` leaves `b` unreached, `b` cannot be reached
   * from `a` at all: the reached vertices form a closed set without `b`.
   */
  lemma ReachedSeparates(g: Graph, ribs: seq<Rib>, ribId: seq<int>, a: nat, b: nat)
    requires WellFormed(g, ribs) && |ribId| == |g.adj| && a < |g.adj| && b < |g.adj|
    requires ribId[a] != -1 && ribId[b] == -1
    requires forall v :: 0 <= v < |g.adj| && ribId[v] != -1 ==> ExpandedUpTo(g, ribs, ribId, v, |g.adj[v]|)
    ensures Separated(g, ribs, a, b)
  {
    var R := set v: nat | v < |g.adj| && ribId[v] != -1;
    forall v, e | v in R && v < |g.adj| && 0 <= e < |g.adj[v]| &&
      FindRib(ribs, EdgeKey(g, v, g.adj[v][e])) < |g.adj| - 1
      ensures g.adj[v][e] in R
    {
      assert ExpandedUpTo(g, ribs, ribId, v, |g.adj[v]|);
    }
    assert a in R && b !in R && TreeClosed(g, ribs, R);
  }
}
