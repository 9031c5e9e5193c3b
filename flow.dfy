/**
 * The min-cost-flow phase: successive shortest paths in the residual network
 * over the arc matrices, with potentials. Each round runs a label-correcting
 * search from the source with a deque (a node improved for the first time
 * goes to the back, one improved after it was scanned goes to the front),
 * lowers the potentials by the labels, and pushes one unit of flow along the
 * predecessor chain from the sink back to the source. The rounds stop once
 * the sink's predecessor is the source itself, that is once the path found
 * is the bypass arc.
 */
module Flow {
  import opened Wrappers
  import opened Ribs
  import opened Search
  import opened Chains
  import opened History

  // ---------------------------------------------------------------------------
  // Residual arcs and reduced costs

  /** Arc `x -> y` has spare capacity. */
  predicate Residual(f: array2<int>, u: array2<int>, x: nat, y: nat)
    reads f, u
    requires x < f.Length0 && y < f.Length1 && x < u.Length0 && y < u.Length1
  {
    f[x, y] < u[x, y]
  }

  /** The cost of arc `x -> y` reduced by the potentials. */
  function ReducedCost(c: array2<int>, pi: array<int>, x: nat, y: nat): int
    reads c, pi
    requires x < c.Length0 && y < c.Length1 && x < pi.Length && y < pi.Length
  {
    c[x, y] - pi[x] + pi[y]
  }

  /** `f` is a flow within the capacities `u`: antisymmetric and never above capacity. */
  ghost predicate FlowInv(f: array2<int>, u: array2<int>)
    reads f, u
    requires f.Length0 == f.Length1 == u.Length0 == u.Length1
  {
    forall x, y :: 0 <= x < f.Length0 && 0 <= y < f.Length0 ==> f[x, y] == -f[y, x] && f[x, y] <= u[x, y]
  }

  /** The matrices of the network: all square of side `nn`, the potentials of length `nn`. */
  predicate Network(nn: nat, f: array2<int>, u: array2<int>, c: array2<int>, pi: array<int>)
  {
    && f.Length0 == f.Length1 == u.Length0 == u.Length1 == c.Length0 == c.Length1 == pi.Length == nn
    && f != u && f != c && u != c
  }

  /**
   * One arc `v -> i` of the scan: when it has spare capacity and lowers the
   * label of `i`, the label drops, `v` becomes the predecessor of `i`, and
   * `i` is queued as `Push` says and put in state 1; `d0`, `p0`, `id0` are the state
   * before the whole scan, against which `Lowered` keeps holding.
   */
  method RelaxArc(f: array2<int>, u: array2<int>, c: array2<int>, pi: array<int>, s: nat,
                  d: array<int>, p: array<int>, id: array<int>, q: seq<nat>, v: nat, i: nat,
                  ghost res: seq<seq<bool>>, ghost rc: seq<seq<int>>, ghost d0: seq<int>,
                  ghost p0: seq<int>, ghost id0: seq<int>) returns (q': seq<nat>)
    requires Network(pi.Length, f, u, c, pi) && v < pi.Length && i < pi.Length
    requires d.Length == p.Length == id.Length == pi.Length && id != d && id != p && d != p
    requires pi != d && pi != p && pi != id
    requires Tables(f, u, c, pi, res, rc)
    requires SearchInv(pi.Length, s, res, rc, d[..], p[..], id[..], q, v, i)
    requires Lowered(d0, p0, id0, d[..], p[..], id[..], v)
    modifies d, p, id
    ensures SearchInv(pi.Length, s, res, rc, d[..], p[..], id[..], q', v, i + 1)
    ensures Lowered(d0, p0, id0, d[..], p[..], id[..], v)
    ensures if res[v][i] && old(d[v]) + rc[v][i] < old(d[i]) then
              && d[..] == old(d[..])[i := old(d[v]) + rc[v][i]]
              && p[..] == old(p[..])[i := v] && id[..] == old(id[..])[i := 1]
              && q' == Push(q, old(id[i]), i)
            else d[..] == old(d[..]) && p[..] == old(p[..]) && id[..] == old(id[..]) && q' == q
  {
    var nn := pi.Length;
    ghost var labels, preds, states := d[..], p[..], id[..];
    var spare := f[v, i] < u[v, i];
    var newD := d[v] + c[v, i] - pi[v] + pi[i];
    assert spare == res[v][i] && newD == labels[v] + rc[v][i];
    if spare && newD < d[i] {
      q' := Push(q, id[i], i);
      d[i] := newD;
      id[i] := 1;
      p[i] := v;
      RelaxKeeps(nn, s, res, rc, labels, preds, states, q, v, i, newD, q');
      LoweredStep(d0, p0, id0, labels, preds, states, v, i, newD);
      assert d[..] == labels[i := newD] && p[..] == preds[i := v] && id[..] == states[i := 1];
    } else {
      SkipKeeps(nn, s, res, rc, labels, preds, states, q, v, i);
      q' := q;
    }
  }

  /** The search invariant with an empty deque, read back through the snapshots, is the search outcome. */
  lemma SearchOutcome(f: array2<int>, u: array2<int>, c: array2<int>, pi: array<int>, s: nat,
                      res: seq<seq<bool>>, rc: seq<seq<int>>, d: seq<int>, p: seq<int>, id: seq<int>)
    requires Network(pi.Length, f, u, c, pi) && s < pi.Length
    requires Tables(f, u, c, pi, res, rc)
    requires SearchInv(pi.Length, s, res, rc, d, p, id, [], -1, 0)
    ensures ShortestLabels(f, u, c, pi, s, d, p)
  {
    SearchDone(pi.Length, s, res, rc, d, p, id);
  }

  /** `res` and `rc` are snapshots of the residual arcs and the reduced costs. */
  ghost predicate Tables(f: array2<int>, u: array2<int>, c: array2<int>, pi: array<int>,
                         res: seq<seq<bool>>, rc: seq<seq<int>>)
    reads f, u, c, pi
    requires Network(pi.Length, f, u, c, pi)
  {
    && Square(pi.Length, res) && Square(pi.Length, rc)
    && forall x, y :: 0 <= x < pi.Length && 0 <= y < pi.Length ==>
         res[x][y] == Residual(f, u, x, y) && rc[x][y] == ReducedCost(c, pi, x, y)
  }

  /** Snapshot of the residual arcs. */
  ghost function ResidualTable(f: array2<int>, u: array2<int>): (res: seq<seq<bool>>)
    reads f, u
    requires f.Length0 == f.Length1 == u.Length0 == u.Length1
    ensures Square(f.Length0, res)
    ensures forall x, y :: 0 <= x < f.Length0 && 0 <= y < f.Length0 ==> res[x][y] == Residual(f, u, x, y)
  {
    seq(f.Length0, x reads f, u requires 0 <= x < f.Length0 =>
      seq(f.Length0, y reads f, u requires 0 <= y < f.Length0 => Residual(f, u, x, y)))
  }

  /** Snapshot of the reduced costs. */
  ghost function CostTable(c: array2<int>, pi: array<int>): (rc: seq<seq<int>>)
    reads c, pi
    requires c.Length0 == c.Length1 == pi.Length
    ensures Square(pi.Length, rc)
    ensures forall x, y :: 0 <= x < pi.Length && 0 <= y < pi.Length ==> rc[x][y] == ReducedCost(c, pi, x, y)
  {
    seq(pi.Length, x reads c, pi requires 0 <= x < pi.Length =>
      seq(pi.Length, y reads c, pi requires 0 <= y < pi.Length => ReducedCost(c, pi, x, y)))
  }

  // ---------------------------------------------------------------------------
  // The search

  /** The search outcome the rest of the algorithm relies on, over the current flow `f` and potentials `pi`. */
  ghost predicate ShortestLabels(f: array2<int>, u: array2<int>, c: array2<int>, pi: array<int>, s: nat,
                                 d: seq<int>, p: seq<int>)
    reads f, u, c, pi
    requires Network(pi.Length, f, u, c, pi) && s < pi.Length
  {
    ShortestOver(Table(f), u, c, pi[..], s, d, p)
  }

  /**
   * The label-correcting search from `s` with the smallest-label-first
   * deque. `fuel` bounds the number of pops; `done` is false when it runs
   * out with the deque still non-empty.
   */
  method ShortestPaths(f: array2<int>, u: array2<int>, c: array2<int>, pi: array<int>, s: nat, fuel: nat)
    returns (d: array<int>, p: array<int>, done: bool)
    requires Network(pi.Length, f, u, c, pi) && s < pi.Length
    ensures fresh(d) && fresh(p) && d.Length == p.Length == pi.Length
    ensures done ==> ShortestLabels(f, u, c, pi, s, d[..], p[..])
  {
    var nn := pi.Length;
    ghost var res, rc := ResidualTable(f, u), CostTable(c, pi);
    assert Tables(f, u, c, pi, res, rc);
    var id := new int[nn](_ => 0);
    var q: seq<nat> := [s];
    d := new int[nn](x => Init(s, x));
    p := new int[nn](_ => -1);
    SearchStart(nn, s, res, rc, d[..], p[..], id[..]);
    var pops := fuel;
    while q != [] && pops > 0
      invariant fresh(id) && fresh(d) && fresh(p) && id != d && id != p && d != p
      invariant d.Length == p.Length == id.Length == nn
      invariant SearchInv(nn, s, res, rc, d[..], p[..], id[..], q, -1, 0)
      decreases pops
    {
      q := ScanFront(f, u, c, pi, s, d, p, id, q, res, rc);
      pops := pops - 1;
    }
    done := q == [];
    if done {
      SearchOutcome(f, u, c, pi, s, res, rc, d[..], p[..], id[..]);
    }
  }

  /** One pop: the front node `v` leaves the deque, is marked scanned, and every arc out of it is scanned. */
  method ScanFront(f: array2<int>, u: array2<int>, c: array2<int>, pi: array<int>, s: nat,
                   d: array<int>, p: array<int>, id: array<int>, q: seq<nat>,
                   ghost res: seq<seq<bool>>, ghost rc: seq<seq<int>>) returns (q': seq<nat>)
    requires Network(pi.Length, f, u, c, pi)
    requires d.Length == p.Length == id.Length == pi.Length && id != d && id != p && d != p
    requires pi != d && pi != p && pi != id
    requires Tables(f, u, c, pi, res, rc)
    requires SearchInv(pi.Length, s, res, rc, d[..], p[..], id[..], q, -1, 0) && q != []
    modifies d, p, id
    ensures SearchInv(pi.Length, s, res, rc, d[..], p[..], id[..], q', -1, 0)
    ensures Lowered(old(d[..]), old(p[..]), old(id[..])[q[0] := 2], d[..], p[..], id[..], q[0])
  {
    ghost var states := id[..];
    var v := q[0];
    PopKeeps(pi.Length, s, res, rc, d[..], p[..], states, q);
    id[v] := 2;
    assert id[..] == states[v := 2];
    q' := ScanArcs(f, u, c, pi, s, d, p, id, q[1..], v, res, rc);
  }

  /** The scan of every arc out of `v`, relaxing those with spare capacity that lower a label. */
  method ScanArcs(f: array2<int>, u: array2<int>, c: array2<int>, pi: array<int>, s: nat,
                  d: array<int>, p: array<int>, id: array<int>, q: seq<nat>, v: nat,
                  ghost res: seq<seq<bool>>, ghost rc: seq<seq<int>>) returns (q': seq<nat>)
    requires Network(pi.Length, f, u, c, pi) && v < pi.Length
    requires d.Length == p.Length == id.Length == pi.Length && id != d && id != p && d != p
    requires pi != d && pi != p && pi != id
    requires Tables(f, u, c, pi, res, rc)
    requires SearchInv(pi.Length, s, res, rc, d[..], p[..], id[..], q, v, 0)
    modifies d, p, id
    ensures SearchInv(pi.Length, s, res, rc, d[..], p[..], id[..], q', -1, 0)
    ensures Lowered(old(d[..]), old(p[..]), old(id[..]), d[..], p[..], id[..], v)
  {
    var nn := pi.Length;
    ghost var labels, preds, states := d[..], p[..], id[..];
    q' := q;
    for i := 0 to nn
      invariant SearchInv(nn, s, res, rc, d[..], p[..], id[..], q', v, i)
      invariant Lowered(labels, preds, states, d[..], p[..], id[..], v)
    {
      q' := RelaxArc(f, u, c, pi, s, d, p, id, q', v, i, res, rc, labels, preds, states);
    }
    ScanDone(nn, s, res, rc, d[..], p[..], id[..], q', v);
  }

  // ---------------------------------------------------------------------------
  // The augmenting path

  /** One unit across `x -> y`, with the mirror entry kept antisymmetric. */
  method PushUnit(f: array2<int>, x: nat, y: nat)
    requires x < f.Length0 && y < f.Length1 && y < f.Length0 && x < f.Length1
    modifies f
    ensures forall a, b :: 0 <= a < f.Length0 && 0 <= b < f.Length1 ==>
      f[a, b] == old(f[a, b]) + (if a == x && b == y then 1 else 0) - (if a == y && b == x then 1 else 0)
  {
    f[x, y] := f[x, y] + 1;
    f[y, x] := f[y, x] - 1;
  }

  /**
   * The augmentation: from the sink back to the source along the
   * predecessors, one unit onto every arc `p[v] -> v` and off its mirror.
   */
  method Augment(f: array2<int>, p: array<int>, s: nat, t: nat, ghost path: seq<nat>)
    requires f.Length0 == f.Length1 == p.Length
    requires PredChain(p[..], path, t, s)
    modifies f
    ensures forall x, y :: 0 <= x < f.Length0 && 0 <= y < f.Length0 ==>
      f[x, y] == old(f[x, y]) + ArcCount(path, x, y) - ArcCount(path, y, x)
  {
    var v := t;
    ghost var k := 0;
    forall x: nat, y: nat
      ensures ArcCount(path[..1], x, y) == 0
    {
      assert |path[..1]| == 1;
    }
    while v != s
      invariant k < |path| && v == path[k]
      invariant forall x, y :: 0 <= x < f.Length0 && 0 <= y < f.Length0 ==>
        f[x, y] == old(f[x, y]) + ArcCount(path[..k + 1], x, y) - ArcCount(path[..k + 1], y, x)
      decreases |path| - k
    {
      var pv := p[v];
      assert path[k + 1] == pv;
      assert path[..k + 2][..k + 1] == path[..k + 1];
      PushUnit(f, pv, v);
      v := pv;
      k := k + 1;
    }
    assert path[..k + 1] == path;
  }

  // ---------------------------------------------------------------------------
  // The rounds

  /**
   * The potentials drop by the labels of the search just run; after a
   * finished search that leaves every reduced cost out of a labelled node
   * non-negative and makes the predecessor arcs tight (LabelsLowerCosts).
   */
  method UpdatePotentials(pi: array<int>, d: array<int>)
    requires pi.Length == d.Length && pi != d
    modifies pi
    ensures forall x :: 0 <= x < pi.Length ==> pi[x] == old(pi[x]) - d[x]
    ensures pi[..] == Lower(old(pi[..]), d[..])
  {
    for x := 0 to pi.Length
      invariant forall y :: 0 <= y < x ==> pi[y] == old(pi[y]) - d[y]
      invariant forall y :: x <= y < pi.Length ==> pi[y] == old(pi[y])
    {
      pi[x] := pi[x] - d[x];
    }
  }

  /**
   * Lowering the potentials by the labels of a finished search leaves no
   * residual arc out of a labelled node with a negative reduced cost, and
   * gives every predecessor arc out of a labelled node reduced cost zero.
   */
  lemma LabelsLowerCosts(f: array2<int>, u: array2<int>, c: array2<int>, pi: array<int>, s: nat, d: seq<int>, p: seq<int>)
    requires Network(pi.Length, f, u, c, pi) && s < pi.Length
    requires ShortestLabels(f, u, c, pi, s, d, p)
    ensures var pot := Lower(pi[..], d);
      && (forall x, y :: 0 <= x < pi.Length && 0 <= y < pi.Length && d[x] < INF && Residual(f, u, x, y) ==>
            c[x, y] - pot[x] + pot[y] >= 0)
      && (forall y :: 0 <= y < pi.Length && p[y] != -1 && d[p[y]] < INF ==>
            c[p[y], y] - pot[p[y]] + pot[y] == 0)
  {
  }

  /** A snapshot `before` of the flow that is antisymmetric and within the capacities `u`. */
  ghost predicate FlowWithin(before: seq<seq<int>>, u: array2<int>)
    reads u
    requires u.Length0 == u.Length1 && Square(u.Length0, before)
  {
    forall x, y :: 0 <= x < u.Length0 && 0 <= y < u.Length0 ==> before[x][y] == -before[y][x] && before[x][y] <= u[x, y]
  }

  /** Every predecessor arc had spare capacity in the snapshot `before`. */
  ghost predicate PredSpare(before: seq<seq<int>>, u: array2<int>, p: seq<int>)
    reads u
    requires u.Length0 == u.Length1 == |p| && Square(|p|, before)
  {
    forall y :: 0 <= y < |p| && p[y] != -1 ==> 0 <= p[y] < |p| && before[p[y]][y] < u[p[y], y]
  }

  /**
   * Pushing one unit along a predecessor chain of residual arcs keeps the
   * flow antisymmetric and within capacity, and adds one unit on the bypass
   * `s -> t` exactly when the sink's predecessor is the source.
   */
  lemma AugmentKeepsFlow(f: array2<int>, u: array2<int>, before: seq<seq<int>>, p: seq<int>, path: seq<nat>, s: nat, t: nat)
    requires f.Length0 == f.Length1 == u.Length0 == u.Length1 == |p| && Square(|p|, before)
    requires FlowWithin(before, u) && PredSpare(before, u, p)
    requires PredChain(p, path, t, s) && t != s
    requires forall x, y :: 0 <= x < |p| && 0 <= y < |p| ==>
      f[x, y] == before[x][y] + ArcCount(path, x, y) - ArcCount(path, y, x)
    ensures FlowInv(f, u)
    ensures f[s, t] == before[s][t] + (if p[t] == s then 1 else 0)
  {
    ChainArcs(p, path, t, s);
  }

  /** The bypass is the only arc into the sink, it has capacity, and its reduced cost is at most -INF. */
  ghost predicate BypassFirst(u: array2<int>, c: array2<int>, pi: seq<int>, s: nat, t: nat)
    reads u, c
    requires u.Length0 == u.Length1 == c.Length0 == c.Length1 == |pi| && s < |pi| && t < |pi|
  {
    && 0 < u[s, t]
    && (forall x :: 0 <= x < |pi| && 0 < u[x, t] ==> x == s)
    && c[s, t] - pi[s] + pi[t] <= -INF
  }

  /** Over the zero flow, when the bypass comes first, the search reaches the sink straight from the source. */
  lemma BypassTaken(f: array2<int>, u: array2<int>, c: array2<int>, pi: array<int>, s: nat, t: nat, d: seq<int>, p: seq<int>)
    requires Network(pi.Length, f, u, c, pi) && s < pi.Length && t < pi.Length && s != t
    requires forall x, y :: 0 <= x < pi.Length && 0 <= y < pi.Length ==> f[x, y] == 0
    requires BypassFirst(u, c, pi[..], s, t)
    requires ShortestLabels(f, u, c, pi, s, d, p)
    ensures p[t] == s
  {
    assert Residual(f, u, s, t);
    assert d[t] <= d[s] + ReducedCost(c, pi, s, t);
    assert p[t] != -1;
    assert Residual(f, u, p[t], t);
  }

  /**
   * One round over the flow `f`: the search from `s`, the potentials
   * lowered by its labels, and the augmentation. When the search runs out of
   * fuel nothing changes. Otherwise `labels` and `preds` are the search's
   * outcome over the flow and potentials the round began with, and every
   * potential drops by its label; then either the predecessor chain does not
   * lead back to `s` and the flow stays as it was, or one unit is pushed
   * along that chain `path`. `last` says whether the path was the bypass
   * `[t, s]`, the only one that puts a unit on `s -> t`.
   */
  method FlowRound(f: array2<int>, u: array2<int>, c: array2<int>, pi: array<int>, s: nat, t: nat, fuel: nat)
    returns (failure: Option<Outcome>, last: bool, ghost labels: seq<int>, ghost preds: seq<int>, ghost path: seq<nat>)
    requires Network(pi.Length, f, u, c, pi) && s < pi.Length && t < pi.Length && s != t
    requires FlowInv(f, u)
    modifies f, pi
    ensures failure == None || failure == Some(FuelExhausted) || failure == Some(PathBroken)
    ensures FlowInv(f, u)
    ensures failure == Some(FuelExhausted) ==> pi[..] == old(pi[..]) && Table(f) == old(Table(f))
    ensures failure != Some(FuelExhausted) ==>
      RoundStep(u, c, s, t, old(Table(f)), old(pi[..]), labels, preds, failure.Some?, path, Table(f), pi[..])
    ensures failure == None ==> (last <==> path == [t, s]) && f[s, t] == old(f[s, t]) + (if last then 1 else 0)
    ensures (forall x, y :: 0 <= x < pi.Length && 0 <= y < pi.Length ==> old(f[x, y]) == 0) &&
            BypassFirst(u, c, old(pi[..]), s, t) ==>
      failure != Some(PathBroken) && (failure == None ==> last)
  {
    var p, done;
    p, done, labels, preds := SearchRound(f, u, c, pi, s, t, fuel);
    if !done {
      return Some(FuelExhausted), false, [], [], [];
    }
    var broken;
    broken, last, path := AugmentRound(f, u, p, s, t);
    failure := if broken then Some(PathBroken) else None;
  }

  /**
   * The search of one round and the potential update after it: when the
   * search finishes, its labels `labels` and the predecessors `p` are its
   * outcome over the state the round began with, and every potential drops
   * by its label; otherwise nothing changes. From the zero flow with the
   * bypass forced, the sink's predecessor is the source.
   */
  method SearchRound(f: array2<int>, u: array2<int>, c: array2<int>, pi: array<int>, s: nat, t: nat, fuel: nat)
    returns (p: array<int>, done: bool, ghost labels: seq<int>, ghost preds: seq<int>)
    requires Network(pi.Length, f, u, c, pi) && s < pi.Length && t < pi.Length && s != t
    modifies pi
    ensures fresh(p) && p.Length == pi.Length && preds == p[..]
    ensures !done ==> pi[..] == old(pi[..])
    ensures done ==>
      && old(ShortestLabels(f, u, c, pi, s, labels, preds))
      && pi[..] == Lower(old(pi[..]), labels)
      && (forall y :: 0 <= y < p.Length && p[y] != -1 ==> 0 <= p[y] < p.Length && Residual(f, u, p[y], y))
    ensures
      && done
      && (forall x, y :: 0 <= x < pi.Length && 0 <= y < pi.Length ==> old(f[x, y]) == 0)
      && BypassFirst(u, c, old(pi[..]), s, t)
      ==> p[t] == s
  {
    var d;
    d, p, done := ShortestPaths(f, u, c, pi, s, fuel);
    labels, preds := d[..], p[..];
    if !done {
      return;
    }
    assert old(ShortestLabels(f, u, c, pi, s, labels, preds));
    if (forall x, y :: 0 <= x < pi.Length && 0 <= y < pi.Length ==> f[x, y] == 0) && BypassFirst(u, c, pi[..], s, t) {
      BypassTaken(f, u, c, pi, s, t, labels, p[..]);
    }
    ghost var pi0 := pi[..];
    UpdatePotentials(pi, d);
    assert pi[..] == Lower(pi0, labels);
  }

  /**
   * The augmentation of one round over the predecessors `p` the search
   * left: one unit along the chain `path` from `t` back to `s`, or nothing
   * when the chain does not lead there (`broken`). `last` says whether the
   * chain was the bypass `[t, s]`.
   */
  method AugmentRound(f: array2<int>, u: array2<int>, p: array<int>, s: nat, t: nat)
    returns (broken: bool, last: bool, ghost path: seq<nat>)
    requires f.Length0 == f.Length1 == u.Length0 == u.Length1 == p.Length && f != u
    requires s < p.Length && t < p.Length && s != t
    requires FlowInv(f, u)
    requires forall y :: 0 <= y < p.Length && p[y] != -1 ==> 0 <= p[y] < p.Length && Residual(f, u, p[y], y)
    modifies f
    ensures FlowInv(f, u)
    ensures broken == PredPath(p[..], t, s, p.Length).None?
    ensures broken <==> !exists chain :: PredChain(p[..], chain, t, s)
    ensures broken ==> Table(f) == old(Table(f))
    ensures !broken ==>
      && path == PredPath(p[..], t, s, p.Length).value && PredChain(p[..], path, t, s)
      && (last <==> path == [t, s]) && last == (p[t] == s)
      && Table(f) == Augmented(old(Table(f)), path)
      && f[s, t] == old(f[s, t]) + (if last then 1 else 0)
    ensures p[t] == s ==> !broken && last
  {
    var nn := p.Length;
    ghost var before := Table(f);
    assert FlowWithin(before, u) && PredSpare(before, u, p[..]);
    var chain := PredPath(p[..], t, s, nn);
    if chain.None? {
      PredPathExact(p[..], t, s);
      return true, false, [];
    }
    path := chain.value;
    Augment(f, p, s, t, path);
    TableIs(f, Augmented(before, path));
    AugmentKeepsFlow(f, u, before, p[..], path, s, t);
    broken, last := false, p[t] == s;
    if path == [t, s] {
      assert p[t] == s;
    }
  }

  /**
   * One round of the outer loop over the history of the run: `labels` are
   * the labels of the finished searches and `paths` the augmenting paths so
   * far, so that the potentials are `pi0` lowered by every label and the
   * flow is the sum of the paths. The round adds its labels when its search
   * finishes and its path when that path exists; a run that has not yet met
   * the bypass converges exactly when the new path is the bypass.
   */
  method RunRound(f: array2<int>, u: array2<int>, c: array2<int>, pi: array<int>, s: nat, t: nat, fuel: nat,
                  ghost pi0: seq<int>, ghost labels: seq<seq<int>>, ghost preds: seq<seq<int>>,
                  ghost paths: seq<seq<nat>>)
    returns (failure: Option<Outcome>, last: bool, ghost labels': seq<seq<int>>, ghost preds': seq<seq<int>>,
             ghost paths': seq<seq<nat>>)
    requires Network(pi.Length, f, u, c, pi) && s < pi.Length && t < pi.Length && s != t
    requires FlowInv(f, u) && f[s, t] == 0 && |pi0| == pi.Length
    requires pi[..] == Potentials(pi0, labels) && Table(f) == FlowOf(paths, pi.Length)
    requires BypassRun(paths, t, s, pi.Length, false) && |labels| == |paths|
    requires RunHistory(u, c, pi0, s, t, labels, preds, paths)
    modifies f, pi
    ensures failure == None || failure == Some(FuelExhausted) || failure == Some(PathBroken)
    ensures FlowInv(f, u)
    ensures pi[..] == Potentials(pi0, labels') && Table(f) == FlowOf(paths', pi.Length)
    ensures RunHistory(u, c, pi0, s, t, labels', preds', paths')
    ensures failure == Some(FuelExhausted) ==> labels' == labels && preds' == preds && paths' == paths
    ensures failure != Some(FuelExhausted) ==>
      |labels'| == |labels| + 1 && labels'[..|labels|] == labels && preds'[..|preds|] == preds
    ensures failure == Some(PathBroken) ==> paths' == paths
    ensures failure == None ==>
      && |paths'| == |paths| + 1 && paths'[..|paths|] == paths
      && BypassRun(paths', t, s, pi.Length, last) && f[s, t] == (if last then 1 else 0)
    ensures paths == [] && BypassFirst(u, c, old(pi[..]), s, t) ==>
      failure != Some(PathBroken) && (failure == None ==> last && paths' == [[t, s]])
  {
    if paths == [] && BypassFirst(u, c, pi[..], s, t) {
      EmptyFlow(f);
    }
    ghost var l, pr, path;
    failure, last, l, pr, path := FlowRound(f, u, c, pi, s, t, fuel);
    if failure == Some(FuelExhausted) {
      return failure, last, labels, preds, paths;
    }
    RecordRound(u, c, pi0, s, t, labels, preds, paths, l, pr, path, failure.Some?, Table(f), pi[..]);
    if failure.Some? {
      return failure, last, labels + [l], preds + [pr], paths;
    }
    return failure, last, labels + [l], preds + [pr], paths + [path];
  }

  /**
   * The successive-shortest-path rounds over the capacities `u` and costs
   * `c` from the flow `f = 0`, until a round's path is the bypass `s -> t`.
   * `fuel` bounds the number of rounds and the pops of each search.
   * `labels` are the labels of the rounds whose search finished, `paths` the
   * augmenting paths of the rounds that pushed a unit: the potentials drop by
   * the first, the flow is the sum of the second.
   */
  method MinCostFlow(u: array2<int>, c: array2<int>, pi: array<int>, s: nat, t: nat, fuel: nat)
    returns (f: array2<int>, outcome: Outcome, ghost labels: seq<seq<int>>, ghost preds: seq<seq<int>>,
             ghost paths: seq<seq<nat>>)
    requires u.Length0 == u.Length1 == c.Length0 == c.Length1 == pi.Length && u != c
    requires s < pi.Length && t < pi.Length && s != t
    requires forall x, y :: 0 <= x < pi.Length && 0 <= y < pi.Length ==> 0 <= u[x, y]
    modifies pi
    ensures fresh(f) && f.Length0 == f.Length1 == pi.Length
    ensures outcome != TreePathMissing
    ensures FlowInv(f, u)
    ensures outcome == Converged ==> f[s, t] == 1
    ensures BypassFirst(u, c, old(pi[..]), s, t) ==> outcome != PathBroken
    ensures BypassFirst(u, c, old(pi[..]), s, t) && outcome == Converged ==> paths == [[t, s]]
    ensures |labels| == |paths| + (if outcome == PathBroken then 1 else 0)
    ensures pi[..] == Potentials(old(pi[..]), labels) && Table(f) == FlowOf(paths, pi.Length)
    ensures BypassRun(paths, t, s, pi.Length, outcome == Converged)
    ensures RunHistory(u, c, old(pi[..]), s, t, labels, preds, paths)
  {
    var nn := pi.Length;
    f := new int[nn, nn]((x, y) => 0);
    ghost var pi0 := pi[..];
    ghost var bypass := BypassFirst(u, c, pi0, s, t);
    labels, preds, paths := [], [], [];
    TableIs(f, FlowOf(paths, nn));
    assert pi[..] == Potentials(pi[..], labels);
    var rounds := fuel;
    while true
      invariant fresh(f) && f.Length0 == f.Length1 == nn
      invariant FlowInv(f, u) && f[s, t] == 0
      invariant paths == [] ==> pi[..] == pi0
      invariant bypass ==> paths == []
      invariant pi[..] == Potentials(pi0, labels) && Table(f) == FlowOf(paths, nn)
      invariant BypassRun(paths, t, s, nn, false) && |labels| == |paths|
      invariant RunHistory(u, c, pi0, s, t, labels, preds, paths)
      decreases rounds
    {
      if rounds == 0 {
        return f, FuelExhausted, labels, preds, paths;
      }
      var failure, last;
      failure, last, labels, preds, paths := RunRound(f, u, c, pi, s, t, fuel, pi0, labels, preds, paths);
      if failure == Some(FuelExhausted) {
        return f, FuelExhausted, labels, preds, paths;
      }
      if failure.Some? {
        return f, PathBroken, labels, preds, paths;
      }
      if last {
        return f, Converged, labels, preds, paths;
      }
      rounds := rounds - 1;
    }
  }
}
