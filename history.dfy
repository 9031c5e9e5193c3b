/**
 * The history of the successive-shortest-path rounds, stated over plain
 * values: what each round's search found over the flow and potentials the
 * round began with, and how the rounds so far add up.
 */
module History {
  import opened Wrappers
  import opened Ribs
  import opened Search
  import opened Chains

  /**
   * The outcome of one round's search over the flow `flow` and the
   * potentials `pot`: labels no higher than their start; a node without
   * predecessor keeps its start label; a node with one was reached across an
   * arc with spare capacity from it and its label is at least the
   * predecessor's plus that arc's reduced cost; and no arc with spare
   * capacity out of a node with a finite label can lower a label further.
   */
  ghost predicate ShortestOver(flow: seq<seq<int>>, u: array2<int>, c: array2<int>, pot: seq<int>, s: nat,
                               d: seq<int>, p: seq<int>)
    reads u, c
  {
    var nn := |pot|;
    && u.Length0 == u.Length1 == c.Length0 == c.Length1 == |flow| == nn && s < nn
    && (forall x :: 0 <= x < nn ==> |flow[x]| == nn)
    && |d| == |p| == nn
    && (forall y :: 0 <= y < nn ==> d[y] <= Init(s, y))
    && (forall y :: 0 <= y < nn && p[y] == -1 ==> d[y] == Init(s, y))
    && (forall y :: 0 <= y < nn && p[y] != -1 ==>
          0 <= p[y] < nn && flow[p[y]][y] < u[p[y], y] && d[y] >= d[p[y]] + c[p[y], y] - pot[p[y]] + pot[y])
    && (forall x, y :: 0 <= x < nn && 0 <= y < nn && d[x] < INF && flow[x][y] < u[x, y] ==>
          d[y] <= d[x] + c[x, y] - pot[x] + pot[y])
  }

  /**
   * Round `k` of a run from the potentials `pi0` and the zero flow: its
   * labels and predecessors are the search outcome over the flow of the
   * paths before it and the potentials lowered by the labels before it.
   */
  ghost predicate RoundOutcome(u: array2<int>, c: array2<int>, pi0: seq<int>, s: nat,
                               labels: seq<seq<int>>, preds: seq<seq<int>>, paths: seq<seq<nat>>, k: nat)
    reads u, c
    requires k < |labels| == |preds| && k <= |paths|
  {
    ShortestOver(FlowOf(paths[..k], |pi0|), u, c, Potentials(pi0, labels[..k]), s, labels[k], preds[k])
  }

  /**
   * The history of a run: every round's outcome is as `RoundOutcome` says;
   * each path is its round's predecessor chain from `t` back to `s`; and a
   * round without a path, which can only be the last, had a broken chain.
   */
  ghost predicate RunHistory(u: array2<int>, c: array2<int>, pi0: seq<int>, s: nat, t: nat,
                             labels: seq<seq<int>>, preds: seq<seq<int>>, paths: seq<seq<nat>>)
    reads u, c
  {
    var nn := |pi0|;
    && t < nn && |preds| == |labels| && |paths| <= |labels| <= |paths| + 1
    && (forall k :: 0 <= k < |labels| ==> |preds[k]| == nn)
    && (forall k :: 0 <= k < |labels| ==> RoundOutcome(u, c, pi0, s, labels, preds, paths, k))
    && (forall k :: 0 <= k < |paths| ==> PredPath(preds[k], t, s, nn) == Some(paths[k]))
    && (|paths| < |labels| ==> PredPath(preds[|paths|], t, s, nn).None?)
  }

  /** A round's outcome does not depend on the rounds after it. */
  lemma RoundOutcomeSnoc(u: array2<int>, c: array2<int>, pi0: seq<int>, s: nat,
                         labels: seq<seq<int>>, preds: seq<seq<int>>, paths: seq<seq<nat>>,
                         l: seq<int>, pr: seq<int>, paths': seq<seq<nat>>, k: nat)
    requires k < |labels| == |preds| && k <= |paths| <= |paths'| && paths'[..|paths|] == paths
    requires RoundOutcome(u, c, pi0, s, labels, preds, paths, k)
    ensures RoundOutcome(u, c, pi0, s, labels + [l], preds + [pr], paths', k)
  {
    assert (labels + [l])[..k] == labels[..k] && paths'[..k] == paths[..k];
  }

  /**
   * A run whose every round so far pushed a unit, extended by one more round
   * whose search outcome over the current flow and potentials is `l`, `pr`:
   * with its path when the chain from `t` reaches `s`, without one otherwise.
   */
  lemma HistorySnoc(u: array2<int>, c: array2<int>, pi0: seq<int>, s: nat, t: nat,
                    labels: seq<seq<int>>, preds: seq<seq<int>>, paths: seq<seq<nat>>,
                    l: seq<int>, pr: seq<int>, paths': seq<seq<nat>>)
    requires RunHistory(u, c, pi0, s, t, labels, preds, paths) && |labels| == |paths|
    requires ShortestOver(FlowOf(paths, |pi0|), u, c, Potentials(pi0, labels), s, l, pr)
    requires paths' == (match PredPath(pr, t, s, |pi0|) case None => paths case Some(path) => paths + [path])
    ensures RunHistory(u, c, pi0, s, t, labels + [l], preds + [pr], paths')
  {
    var labels', preds' := labels + [l], preds + [pr];
    assert paths'[..|paths|] == paths;
    forall k | 0 <= k < |labels'|
      ensures RoundOutcome(u, c, pi0, s, labels', preds', paths', k)
    {
      if k < |labels| {
        RoundOutcomeSnoc(u, c, pi0, s, labels, preds, paths, l, pr, paths', k);
      } else {
        assert labels'[..k] == labels;
      }
    }
  }

  /**
   * One round from the flow `flow` and the potentials `pot` to the flow
   * `flow'` and the potentials `pot'`: its search outcome is `l` and `pr`,
   * every potential drops by its label, the chain from `t` is `broken`
   * exactly when it does not lead back to `s`, and otherwise the flow grows
   * by one unit along that chain `path`.
   */
  ghost predicate RoundStep(u: array2<int>, c: array2<int>, s: nat, t: nat, flow: seq<seq<int>>, pot: seq<int>,
                            l: seq<int>, pr: seq<int>, broken: bool, path: seq<nat>,
                            flow': seq<seq<int>>, pot': seq<int>)
    reads u, c
  {
    && ShortestOver(flow, u, c, pot, s, l, pr) && t < |pot|
    && pot' == Lower(pot, l)
    && broken == PredPath(pr, t, s, |pot|).None?
    && (!broken ==> path == PredPath(pr, t, s, |pot|).value)
    && flow' == (if broken then flow else Augmented(flow, path))
  }

  /**
   * The bookkeeping of one round that took the run from the flow and
   * potentials of its history to `flow'` and `pot'`: the round joins the
   * history, and unless the chain is `broken` its path `path` joins the
   * paths and the run converges exactly when it is the bypass.
   */
  lemma RecordRound(u: array2<int>, c: array2<int>, pi0: seq<int>, s: nat, t: nat,
                    labels: seq<seq<int>>, preds: seq<seq<int>>, paths: seq<seq<nat>>,
                    l: seq<int>, pr: seq<int>, path: seq<nat>, broken: bool,
                    flow': seq<seq<int>>, pot': seq<int>)
    requires RunHistory(u, c, pi0, s, t, labels, preds, paths) && |labels| == |paths| && s != t
    requires BypassRun(paths, t, s, |pi0|, false)
    requires RoundStep(u, c, s, t, FlowOf(paths, |pi0|), Potentials(pi0, labels), l, pr, broken, path, flow', pot')
    ensures (labels + [l])[..|labels|] == labels && (preds + [pr])[..|preds|] == preds
    ensures pot' == Potentials(pi0, labels + [l])
    ensures broken ==> RunHistory(u, c, pi0, s, t, labels + [l], preds + [pr], paths) && flow' == FlowOf(paths, |pi0|)
    ensures !broken ==>
      && RunHistory(u, c, pi0, s, t, labels + [l], preds + [pr], paths + [path])
      && (paths + [path])[..|paths|] == paths
      && flow' == FlowOf(paths + [path], |pi0|)
      && BypassRun(paths + [path], t, s, |pi0|, path == [t, s])
  {
    var paths' := if broken then paths else paths + [path];
    PotentialsSnoc(pi0, labels, l);
    HistorySnoc(u, c, pi0, s, t, labels, preds, paths, l, pr, paths');
    assert (labels + [l])[..|labels|] == labels && (preds + [pr])[..|preds|] == preds;
    assert paths'[..|paths|] == paths;
    if !broken {
      FlowOfSnoc(paths, path, |pi0|);
      ChainRoute(pr, path, t, s);
      BypassRunSnoc(paths, path, t, s, |pi0|);
    }
  }
}
