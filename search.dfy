/**
 * The label-correcting search of the min-cost-flow phase, stated over plain
 * sequences: snapshots of the residual arcs `res` and reduced costs `rc`
 * (which do not change during a search), the labels `d`, the predecessors
 * `p`, the node states `id` and the deque `q`. Each lemma is one step of the
 * search and shows that it keeps the search invariant.
 */
module Search {
  import opened Ribs

  /** The label every node starts the search with: 0 at the source, INF elsewhere. */
  function Init(s: nat, x: nat): int
  {
    if x == s then 0 else INF
  }

  /** `m` is an `nn` by `nn` table. */
  ghost predicate Square<T>(nn: nat, m: seq<seq<T>>)
  {
    |m| == nn && forall x :: 0 <= x < nn ==> |m[x]| == nn
  }

  /**
   * The deque `q` and the node states `id` (0 never queued, 1 queued,
   * 2 scanned): the deque holds, once each, the nodes in state 1 and, before
   * the first pop, the source in state 0. `v` is the node being scanned, or
   * -1 between scans.
   */
  ghost predicate QueueInv(nn: nat, s: nat, id: seq<int>, q: seq<nat>, v: int)
  {
    && |id| == nn && s < nn
    && (forall k :: 0 <= k < |q| ==> q[k] < nn)
    && (forall j, k :: 0 <= j < k < |q| ==> q[j] != q[k])
    && (forall x :: 0 <= x < nn ==> 0 <= id[x] <= 2)
    && (forall x :: 0 <= x < nn ==> (x in q <==> id[x] == 1 || (x == s && id[x] == 0)))
    && (id[s] == 0 ==> q == [s] && v < 0)
  }

  /**
   * The labels `d` and predecessors `p`: a label never rises above its
   * start; a node without predecessor keeps its start label and was never
   * reached; a node with predecessor `p[y]` was improved across the residual
   * arc `p[y] -> y`, and its label is at least the predecessor's plus that
   * arc's reduced cost.
   */
  ghost predicate LabelInv(nn: nat, s: nat, res: seq<seq<bool>>, rc: seq<seq<int>>,
                           d: seq<int>, p: seq<int>, id: seq<int>)
  {
    && Square(nn, res) && Square(nn, rc) && |d| == |p| == |id| == nn
    && (forall y :: 0 <= y < nn ==> d[y] <= Init(s, y))
    && (forall y :: 0 <= y < nn && p[y] == -1 ==> d[y] == Init(s, y))
    && (forall y :: 0 <= y < nn && id[y] == 0 ==> p[y] == -1)
    && (forall y :: 0 <= y < nn && p[y] != -1 ==>
          0 <= p[y] < nn && res[p[y]][y] && d[y] >= d[p[y]] + rc[p[y]][y])
  }

  /**
   * No residual arc out of a scanned node can improve a label any more; for
   * the node `v` being scanned this holds for the arcs to nodes below `i`.
   */
  ghost predicate Settled(nn: nat, res: seq<seq<bool>>, rc: seq<seq<int>>, d: seq<int>, id: seq<int>, v: int, i: nat)
    requires Square(nn, res) && Square(nn, rc) && |d| == |id| == nn
  {
    forall x, y :: 0 <= x < nn && 0 <= y < nn && id[x] == 2 && res[x][y] && (x != v || y < i) ==>
      d[y] <= d[x] + rc[x][y]
  }

  ghost predicate SearchInv(nn: nat, s: nat, res: seq<seq<bool>>, rc: seq<seq<int>>,
                            d: seq<int>, p: seq<int>, id: seq<int>, q: seq<nat>, v: int, i: nat)
  {
    && QueueInv(nn, s, id, q, v)
    && LabelInv(nn, s, res, rc, d, p, id)
    && Settled(nn, res, rc, d, id, v, i)
  }

  /** Where a node improved in state `state` goes: the back of the deque from state 0, the front from state 2, nowhere from 1. */
  function Push(q: seq<nat>, state: int, x: nat): seq<nat>
  {
    if state == 0 then q + [x] else if state == 2 then [x] + q else q
  }

  /** Taking the front node `v` from the deque and marking it scanned. */
  lemma PopKeeps(nn: nat, s: nat, res: seq<seq<bool>>, rc: seq<seq<int>>,
                 d: seq<int>, p: seq<int>, id: seq<int>, q: seq<nat>)
    requires SearchInv(nn, s, res, rc, d, p, id, q, -1, 0) && q != []
    ensures SearchInv(nn, s, res, rc, d, p, id[q[0] := 2], q[1..], q[0], 0)
  {
    var v := q[0];
    forall x | 0 <= x < nn
      ensures x in q[1..] <==> id[q[0] := 2][x] == 1 || (x == s && id[q[0] := 2][x] == 0)
    {
      if x in q[1..] {
        var k :| 0 <= k < |q[1..]| && q[1..][k] == x;
        assert q[k + 1] == x;
      }
      if x != v {
        assert x in q ==> x in q[1..];
      }
    }
  }

  /** Improving the label of `i` across the residual arc `v -> i`. */
  lemma RelaxKeeps(nn: nat, s: nat, res: seq<seq<bool>>, rc: seq<seq<int>>,
                   d: seq<int>, p: seq<int>, id: seq<int>, q: seq<nat>, v: nat, i: nat, nd: int, q': seq<nat>)
    requires SearchInv(nn, s, res, rc, d, p, id, q, v, i) && v < nn && i < nn
    requires res[v][i] && nd == d[v] + rc[v][i] && nd < d[i] && q' == Push(q, id[i], i)
    ensures SearchInv(nn, s, res, rc, d[i := nd], p[i := v], id[i := 1], q', v, i + 1)
  {
    var d', p', id' := d[i := nd], p[i := v], id[i := 1];
    assert id[i] == 0 ==> i != s;
    forall x | 0 <= x < nn
      ensures x in q' <==> id'[x] == 1 || (x == s && id'[x] == 0)
    {
      assert x in q' <==> x in q || x == i;
    }
    forall y | 0 <= y < nn && p'[y] != -1
      ensures 0 <= p'[y] < nn && res[p'[y]][y] && d'[y] >= d'[p'[y]] + rc[p'[y]][y]
    {
      if y != i && p[y] == i {
        assert d'[y] >= d'[i] + rc[i][y];
      }
    }
    assert Settled(nn, res, rc, d', id', v, i + 1);
  }

  /** Leaving `i` alone when the arc `v -> i` is saturated or does not improve it. */
  lemma SkipKeeps(nn: nat, s: nat, res: seq<seq<bool>>, rc: seq<seq<int>>,
                  d: seq<int>, p: seq<int>, id: seq<int>, q: seq<nat>, v: nat, i: nat)
    requires SearchInv(nn, s, res, rc, d, p, id, q, v, i) && v < nn && i < nn
    requires !(res[v][i] && d[v] + rc[v][i] < d[i])
    ensures SearchInv(nn, s, res, rc, d, p, id, q, v, i + 1)
  {
  }

  /** Once every arc out of `v` is scanned, `v` is settled like every other scanned node. */
  lemma ScanDone(nn: nat, s: nat, res: seq<seq<bool>>, rc: seq<seq<int>>,
                 d: seq<int>, p: seq<int>, id: seq<int>, q: seq<nat>, v: nat)
    requires SearchInv(nn, s, res, rc, d, p, id, q, v, nn)
    ensures SearchInv(nn, s, res, rc, d, p, id, q, -1, 0)
  {
  }

  /** With the deque empty, no node is still queued, and the source has been scanned. */
  lemma SearchDone(nn: nat, s: nat, res: seq<seq<bool>>, rc: seq<seq<int>>,
                   d: seq<int>, p: seq<int>, id: seq<int>)
    requires SearchInv(nn, s, res, rc, d, p, id, [], -1, 0)
    ensures forall x :: 0 <= x < nn && d[x] < INF ==> id[x] == 2
  {
    forall x | 0 <= x < nn && d[x] < INF
      ensures id[x] == 2
    {
      assert x !in [];
    }
  }

  /** The state the search starts from: only the source queued, with label 0, every other label INF, no predecessors. */
  lemma SearchStart(nn: nat, s: nat, res: seq<seq<bool>>, rc: seq<seq<int>>, d: seq<int>, p: seq<int>, id: seq<int>)
    requires s < nn && Square(nn, res) && Square(nn, rc) && |d| == |p| == |id| == nn
    requires forall x :: 0 <= x < nn ==> d[x] == Init(s, x) && p[x] == -1 && id[x] == 0
    ensures SearchInv(nn, s, res, rc, d, p, id, [s], -1, 0)
  {
  }

  /**
   * What one scan did to node `x`, measured against the state before it: its label did
   * not rise; if it dropped, `x` now has predecessor `v` and state 1 (queued), and
   * otherwise `x` kept its predecessor and its state.
   */
  ghost predicate LoweredAt(d0: seq<int>, p0: seq<int>, id0: seq<int>,
                            d: seq<int>, p: seq<int>, id: seq<int>, v: int, x: int)
  {
    && 0 <= x < |d| && x < |d0| && x < |p| && x < |p0| && x < |id| && x < |id0|
    && d[x] <= d0[x]
    && if d[x] < d0[x] then p[x] == v && id[x] == 1 else p[x] == p0[x] && id[x] == id0[x]
  }

  /** `LoweredAt` for every node. */
  ghost predicate Lowered(d0: seq<int>, p0: seq<int>, id0: seq<int>,
                          d: seq<int>, p: seq<int>, id: seq<int>, v: int)
  {
    && |d| == |d0| && |p| == |p0| == |d| && |id| == |id0| == |d|
    && forall x :: 0 <= x < |d| ==> LoweredAt(d0, p0, id0, d, p, id, v, x)
  }

  /** Lowering the label of `i` below its current value and making `v` its predecessor keeps `Lowered`. */
  lemma LoweredStep(d0: seq<int>, p0: seq<int>, id0: seq<int>,
                    d: seq<int>, p: seq<int>, id: seq<int>, v: int, i: nat, nd: int)
    requires Lowered(d0, p0, id0, d, p, id, v) && i < |d| && nd < d[i]
    ensures Lowered(d0, p0, id0, d[i := nd], p[i := v], id[i := 1], v)
  {
    var d', p', id' := d[i := nd], p[i := v], id[i := 1];
    forall x | 0 <= x < |d|
      ensures LoweredAt(d0, p0, id0, d', p', id', v, x)
    {
      assert LoweredAt(d0, p0, id0, d, p, id, v, x);
    }
  }
}
