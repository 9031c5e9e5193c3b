/**
 * The augmenting paths of the min-cost-flow phase, stated over plain
 * sequences: the predecessor chain from the sink back to the source, the
 * number of times an augmentation along it crosses each arc, and the totals
 * that a run of rounds adds up to.
 */
module Chains {
  import opened Wrappers
  import opened Ribs

  /**
   * `path` is the predecessor chain from `v` to `s`: it starts at `v`, each
   * node before the last is not `s` and is followed by its predecessor, and
   * the last node is `s`.
   */
  ghost predicate PredChain(p: seq<int>, path: seq<nat>, v: nat, s: nat)
  {
    && |path| >= 1 && path[0] == v && path[|path| - 1] == s
    && (forall k :: 0 <= k < |path| ==> path[k] < |p|)
    && (forall k :: 0 <= k < |path| - 1 ==> path[k] != s && path[k + 1] == p[path[k]])
  }

  /**
   * Follows the predecessors from `v` until `s`, taking at most `fuel`
   * steps; None when a predecessor is missing (-1) or the steps run out.
   */
  function PredPath(p: seq<int>, v: nat, s: nat, fuel: nat): (r: Option<seq<nat>>)
    requires v < |p|
    ensures r.Some? ==> PredChain(p, r.value, v, s) && |r.value| <= fuel + 1
    ensures v == s ==> r == Some([s])
    decreases fuel
  {
    if v == s then Some([s])
    else if fuel == 0 || !(0 <= p[v] < |p|) then None
    else match PredPath(p, p[v], s, fuel - 1)
      case None => None
      case Some(rest) => Some([v] + rest)
  }

  /** A predecessor chain that reaches `s` visits no node twice: after a repeat it would cycle and never reach `s`. */
  lemma ChainSimple(p: seq<int>, path: seq<nat>, v: nat, s: nat)
    requires PredChain(p, path, v, s)
    ensures forall j, k :: 0 <= j < k < |path| ==> path[j] != path[k]
  {
    forall j, k | 0 <= j < k < |path|
      ensures path[j] != path[k]
    {
      if path[j] == path[k] {
        ChainShift(p, path, v, s, j, k, |path| - 1 - k);
        assert false;
      }
    }
  }

  /** From a repeated node on, the chain repeats itself. */
  lemma {:induction false} ChainShift(p: seq<int>, path: seq<nat>, v: nat, s: nat, j: nat, k: nat, n: nat)
    requires PredChain(p, path, v, s) && j < k && k + n < |path| && path[j] == path[k]
    ensures path[j + n] == path[k + n]
    decreases n
  {
    if n > 0 {
      ChainShift(p, path, v, s, j, k, n - 1);
      assert path[j + n] == p[path[j + n - 1]];
    }
  }

  /** A sequence of distinct nodes all below `n` has at most `n` entries. */
  lemma {:induction false} DistinctBound(xs: seq<nat>, n: nat)
    requires forall k :: 0 <= k < |xs| ==> xs[k] < n
    requires forall j, k :: 0 <= j < k < |xs| ==> xs[j] != xs[k]
    ensures |xs| <= n
    decreases n
  {
    if |xs| == 0 {
    } else if k :| 0 <= k < |xs| && xs[k] == n - 1 {
      var rest := xs[..k] + xs[k + 1..];
      forall j | 0 <= j < |rest|
        ensures rest[j] == (if j < k then xs[j] else xs[j + 1])
      {
      }
      DistinctBound(rest, n - 1);
    } else {
      assert xs[0] < n;
      DistinctBound(xs, n - 1);
    }
  }

  /** Given enough steps, the walk finds any predecessor chain from `v` to `s`. */
  lemma {:induction false} PredPathFinds(p: seq<int>, path: seq<nat>, v: nat, s: nat, fuel: nat)
    requires PredChain(p, path, v, s) && |path| <= fuel + 1
    ensures PredPath(p, v, s, fuel) == Some(path)
    decreases fuel
  {
    if v != s {
      var rest := path[1..];
      assert PredChain(p, rest, path[1], s);
      PredPathFinds(p, rest, path[1], s, fuel - 1);
      assert path == [v] + rest;
    } else {
      assert |path| == 1;
      assert path == [s];
    }
  }

  /**
   * With `|p|` steps the walk is exact: it finds the chain from `v` to `s`
   * whenever there is one, that chain is the only one, and it gives None
   * exactly when there is none.
   */
  lemma PredPathExact(p: seq<int>, v: nat, s: nat)
    requires v < |p|
    ensures PredPath(p, v, s, |p|).None? <==> !exists path :: PredChain(p, path, v, s)
    ensures forall path :: PredChain(p, path, v, s) ==> PredPath(p, v, s, |p|) == Some(path)
  {
    forall path | PredChain(p, path, v, s)
      ensures PredPath(p, v, s, |p|) == Some(path)
    {
      ChainSimple(p, path, v, s);
      DistinctBound(path, |p|);
      PredPathFinds(p, path, v, s, |p|);
    }
  }

  /** How many times the augmentation along `path` pushes a unit across `x -> y` (pairs `path[k + 1] -> path[k]`). */
  function ArcCount(path: seq<nat>, x: nat, y: nat): nat
  {
    if |path| < 2 then 0
    else ArcCount(path[..|path| - 1], x, y) + (if path[|path| - 1] == x && path[|path| - 2] == y then 1 else 0)
  }

  /** On a path without repeats an arc is used at most once, exactly when it joins two neighbouring nodes. */
  lemma {:induction false} ArcCountSimple(path: seq<nat>, x: nat, y: nat)
    requires forall j, k :: 0 <= j < k < |path| ==> path[j] != path[k]
    ensures ArcCount(path, x, y) ==
      (if exists k :: 0 <= k < |path| - 1 && path[k + 1] == x && path[k] == y then 1 else 0)
  {
    if |path| >= 2 {
      var init := path[..|path| - 1];
      ArcCountSimple(init, x, y);
      if path[|path| - 1] == x && path[|path| - 2] == y {
        forall k | 0 <= k < |init| - 1
          ensures !(init[k + 1] == x && init[k] == y)
        {
          assert init[k + 1] == path[k + 1];
        }
      } else {
        forall k | 0 <= k < |path| - 1 && path[k + 1] == x && path[k] == y
          ensures k < |init| - 1 && init[k + 1] == x && init[k] == y
        {
        }
      }
    }
  }

  /**
   * Along the chain from the sink `t` to the source `s`, every arc used is
   * a predecessor arc, the arc `t -> s` is never used, and `s -> t` is used
   * exactly when the sink's predecessor is the source.
   */
  lemma ChainArcs(p: seq<int>, path: seq<nat>, t: nat, s: nat)
    requires PredChain(p, path, t, s) && t != s
    ensures forall x: nat, y: nat :: ArcCount(path, x, y) <= 1
    ensures forall x: nat, y: nat :: ArcCount(path, x, y) != 0 ==> y < |p| && p[y] == x
    ensures ArcCount(path, t, s) == 0
    ensures ArcCount(path, s, t) == (if p[t] == s then 1 else 0)
  {
    ChainSimple(p, path, t, s);
    forall x: nat, y: nat
      ensures ArcCount(path, x, y) <= 1
      ensures ArcCount(path, x, y) != 0 ==> y < |p| && p[y] == x
    {
      ArcCountSimple(path, x, y);
    }
    ArcCountSimple(path, t, s);
    ArcCountSimple(path, s, t);
    if p[t] == s {
      assert path[1] == s;
    }
  }

  // ---------------------------------------------------------------------------
  // The totals over the rounds

  /** The total drop of potential `x` over rounds whose labels were `labels`. */
  function LabelSum(labels: seq<seq<int>>, x: nat): int
  {
    if labels == [] then 0
    else LabelSum(labels[..|labels| - 1], x) + (var l := labels[|labels| - 1]; if x < |l| then l[x] else 0)
  }

  /** How many units the augmentations along `paths` push across `x -> y`. */
  function ArcSum(paths: seq<seq<nat>>, x: nat, y: nat): nat
  {
    if paths == [] then 0 else ArcSum(paths[..|paths| - 1], x, y) + ArcCount(paths[|paths| - 1], x, y)
  }

  lemma LabelSumSnoc(labels: seq<seq<int>>, l: seq<int>, x: nat)
    requires x < |l|
    ensures LabelSum(labels + [l], x) == LabelSum(labels, x) + l[x]
  {
    assert (labels + [l])[..|labels|] == labels;
  }

  lemma ArcSumSnoc(paths: seq<seq<nat>>, path: seq<nat>, x: nat, y: nat)
    ensures ArcSum(paths + [path], x, y) == ArcSum(paths, x, y) + ArcCount(path, x, y)
  {
    assert (paths + [path])[..|paths|] == paths;
  }

  /** The potentials `pi` lowered node by node by the labels `d`. */
  function Lower(pi: seq<int>, d: seq<int>): seq<int>
    requires |d| == |pi|
  {
    seq(|pi|, x requires 0 <= x < |pi| => pi[x] - d[x])
  }

  /** The flow `flow` after one unit is pushed along `path`, net of the mirror entries. */
  function Augmented(flow: seq<seq<int>>, path: seq<nat>): seq<seq<int>>
  {
    seq(|flow|, x requires 0 <= x < |flow| =>
      seq(|flow[x]|, y requires 0 <= y < |flow[x]| => flow[x][y] + ArcCount(path, x, y) - ArcCount(path, y, x)))
  }

  /** The starting potentials `pi0` lowered by the labels of every round in `labels`. */
  function Potentials(pi0: seq<int>, labels: seq<seq<int>>): seq<int>
  {
    seq(|pi0|, x requires 0 <= x < |pi0| => pi0[x] - LabelSum(labels, x))
  }

  /** The `nn` by `nn` flow that the augmentations along `paths` add up to from the zero flow. */
  function FlowOf(paths: seq<seq<nat>>, nn: nat): seq<seq<int>>
  {
    seq(nn, x requires 0 <= x < nn => seq(nn, y requires 0 <= y < nn => ArcSum(paths, x, y) - ArcSum(paths, y, x)))
  }

  /** Lowering the potentials by one more round's labels extends the trace by those labels. */
  lemma PotentialsSnoc(pi0: seq<int>, labels: seq<seq<int>>, l: seq<int>)
    requires |l| == |pi0|
    ensures Lower(Potentials(pi0, labels), l) == Potentials(pi0, labels + [l])
  {
    forall x | 0 <= x < |pi0|
      ensures Lower(Potentials(pi0, labels), l)[x] == Potentials(pi0, labels + [l])[x]
    {
      LabelSumSnoc(labels, l, x);
    }
  }

  /** Augmenting along one more path extends the trace by that path. */
  lemma FlowOfSnoc(paths: seq<seq<nat>>, path: seq<nat>, nn: nat)
    ensures Augmented(FlowOf(paths, nn), path) == FlowOf(paths + [path], nn)
  {
    forall x | 0 <= x < nn
      ensures Augmented(FlowOf(paths, nn), path)[x] == FlowOf(paths + [path], nn)[x]
    {
      forall y | 0 <= y < nn
        ensures Augmented(FlowOf(paths, nn), path)[x][y] == FlowOf(paths + [path], nn)[x][y]
      {
        ArcSumSnoc(paths, path, x, y);
        ArcSumSnoc(paths, path, y, x);
      }
    }
  }

  /** A flow that is the sum of no paths is zero everywhere. */
  lemma EmptyFlow(f: array2<int>)
    requires f.Length0 == f.Length1 && Table(f) == FlowOf([], f.Length0)
    ensures forall x, y :: 0 <= x < f.Length0 && 0 <= y < f.Length0 ==> f[x, y] == 0
  {
    forall x, y | 0 <= x < f.Length0 && 0 <= y < f.Length0
      ensures f[x, y] == 0
    {
      assert f[x, y] == Table(f)[x][y];
    }
  }

  /** The bypass path `[t, s]` alone pushes one unit onto `s -> t` and nothing anywhere else. */
  lemma BypassSum(s: nat, t: nat, x: nat, y: nat)
    requires s != t
    ensures ArcSum([[t, s]], x, y) - ArcSum([[t, s]], y, x) ==
      (if x == s && y == t then 1 else if x == t && y == s then -1 else 0)
  {
    assert [[t, s]][..0] == [] && [t, s][..1] == [t];
    assert ArcSum([[t, s]], x, y) == ArcCount([t, s], x, y) == (if x == s && y == t then 1 else 0);
    assert ArcSum([[t, s]], y, x) == ArcCount([t, s], y, x) == (if y == s && x == t then 1 else 0);
  }

  /** `path` runs from `t` to `s` through nodes below `nn`, none of them twice. */
  ghost predicate SinkRoute(path: seq<nat>, t: nat, s: nat, nn: nat)
  {
    && |path| >= 2 && path[0] == t && path[|path| - 1] == s
    && (forall k :: 0 <= k < |path| ==> path[k] < nn)
    && (forall j, k :: 0 <= j < k < |path| ==> path[j] != path[k])
  }

  /** A predecessor chain from `t` to `s != t` is a route from `t` to `s`. */
  lemma ChainRoute(p: seq<int>, path: seq<nat>, t: nat, s: nat)
    requires PredChain(p, path, t, s) && t != s
    ensures SinkRoute(path, t, s, |p|)
  {
    ChainSimple(p, path, t, s);
  }

  /** The flow that the bypass path alone adds up to is the unit flow on `s -> t`. */
  lemma BypassFlow(f: array2<int>, s: nat, t: nat)
    requires s != t && f.Length0 == f.Length1 && Table(f) == FlowOf([[t, s]], f.Length0)
    ensures forall x, y :: 0 <= x < f.Length0 && 0 <= y < f.Length0 ==>
      f[x, y] == (if x == s && y == t then 1 else if x == t && y == s then -1 else 0)
  {
    forall x, y | 0 <= x < f.Length0 && 0 <= y < f.Length0
      ensures f[x, y] == (if x == s && y == t then 1 else if x == t && y == s then -1 else 0)
    {
      assert f[x, y] == Table(f)[x][y] == FlowOf([[t, s]], f.Length0)[x][y];
      BypassSum(s, t, x, y);
    }
  }

  /**
   * `paths` are routes from `t` to `s`; the bypass `[t, s]` is never among
   * them except as the last one, and is the last one exactly when `converged`.
   */
  ghost predicate BypassRun(paths: seq<seq<nat>>, t: nat, s: nat, nn: nat, converged: bool)
  {
    && (forall k :: 0 <= k < |paths| ==> SinkRoute(paths[k], t, s, nn))
    && (forall k :: 0 <= k < |paths| && (!converged || k < |paths| - 1) ==> paths[k] != [t, s])
    && (converged ==> |paths| > 0 && paths[|paths| - 1] == [t, s])
  }

  /** One more route extends a run that has not met the bypass; it converges when that route is the bypass. */
  lemma BypassRunSnoc(paths: seq<seq<nat>>, path: seq<nat>, t: nat, s: nat, nn: nat)
    requires BypassRun(paths, t, s, nn, false) && SinkRoute(path, t, s, nn)
    ensures BypassRun(paths + [path], t, s, nn, path == [t, s])
  {
    var paths' := paths + [path];
    forall k | 0 <= k < |paths'|
      ensures SinkRoute(paths'[k], t, s, nn)
    {
      if k < |paths| {
        assert paths'[k] == paths[k];
      }
    }
  }
}
