/**
 * The edge list ("ribs") and the graph container it is read against.
 *
 * The edge list holds `m` entries; the first `n - 1` are the edges of the
 * designated spanning tree, the rest are the non-tree edges. The graph
 * container is modelled abstractly by its adjacency lists and its weight
 * lookup, which is all the algorithm asks of it.
 */
module Ribs {
  /** One entry of the edge list: endpoints `(a, b)` and weight `w`. */
  datatype Rib = Rib(a: nat, b: nat, w: int)

  /** The graph container: `adj[v]` lists the neighbours of vertex `v`; `weight(v, j)` is the edge weight. */
  datatype Graph = Graph(adj: seq<seq<nat>>, weight: (nat, nat) -> int)

  /**
   * How a run of the solver ends. The C++ code has no error paths: where it
   * would read out of bounds or loop for ever, the model stops with an
   * outcome that says so.
   *   Converged        the rounds stopped at the bypass path and the weights were written back
   *   FuelExhausted    a search or the rounds took more steps than the bound given
   *   PathBroken       the predecessor chain from the sink does not lead back to the source
   *   TreePathMissing  a non-tree edge's second endpoint is not reached over tree edges
   */
  datatype Outcome = Converged | FuelExhausted | PathBroken | TreePathMissing

  /** The "unreached" label of the shortest-path search and the initial potential. */
  const INF: int := 1000 * 1000 * 1000

  /** What the algorithm needs of its input: at least one vertex, neighbours and endpoints in range, and at least `n - 1` entries. */
  predicate WellFormed(g: Graph, ribs: seq<Rib>)
  {
    && 0 < |g.adj|
    && |g.adj| - 1 <= |ribs|
    && (forall v, k :: 0 <= v < |g.adj| && 0 <= k < |g.adj[v]| ==> g.adj[v][k] < |g.adj|)
    && (forall i :: 0 <= i < |ribs| ==> ribs[i].a < |g.adj| && ribs[i].b < |g.adj|)
  }

  /** Whether `x` is an endpoint of `r`. */
  predicate Incident(r: Rib, x: nat)
  {
    x == r.a || x == r.b
  }

  /**
   * The entry the algorithm looks up for the adjacency pair `(v, j)`:
   * endpoints in increasing order and the container's weight for them.
   */
  function EdgeKey(g: Graph, v: nat, j: nat): (k: Rib)
    ensures k.a <= k.b && ((k.a == v && k.b == j) || (k.a == j && k.b == v))
    ensures k.w == g.weight(k.a, k.b)
  {
    if v < j then Rib(v, j, g.weight(v, j)) else Rib(j, v, g.weight(j, v))
  }

  /**
   * Linear search of the edge list for `key`: the first index holding
   * exactly `key` (endpoints and weight), or `|ribs|` when there is none.
   */
  function FindRib(ribs: seq<Rib>, key: Rib): (k: nat)
    ensures k <= |ribs|
    ensures k < |ribs| ==> ribs[k] == key
    ensures forall j :: 0 <= j < k ==> ribs[j] != key
  {
    if ribs == [] then 0
    else if ribs[0] == key then 0
    else 1 + FindRib(ribs[1..], key)
  }

  /** The endpoint of `r` that is not `x` (for a loop edge, `x` itself). */
  function Other(r: Rib, x: nat): (y: nat)
    ensures Incident(r, x) ==> Incident(r, y) && (r.a != r.b ==> y != x)
  {
    if x != r.a then r.a else r.b
  }

  /** The number of vertices the traversal has marked (label other than -1). */
  function CountMarked(s: seq<int>): (k: nat)
    ensures k <= |s|
  {
    if s == [] then 0 else (if s[0] != -1 then 1 else 0) + CountMarked(s[1..])
  }

  /** Before the traversal starts no vertex is marked. */
  lemma {:induction false} CountMarkedNone(s: seq<int>)
    requires forall k :: 0 <= k < |s| ==> s[k] == -1
    ensures CountMarked(s) == 0
  {
    if s != [] {
      CountMarkedNone(s[1..]);
    }
  }

  /** Marking one more vertex raises the count by exactly one. */
  lemma {:induction false} CountMarkedSet(s: seq<int>, k: nat, x: int)
    requires k < |s| && s[k] == -1 && x != -1
    ensures CountMarked(s[k := x]) == CountMarked(s) + 1
  {
    if k == 0 {
      assert s[k := x][1..] == s[1..];
    } else {
      assert s[k := x][1..] == s[1..][k - 1 := x];
      CountMarkedSet(s[1..], k - 1, x);
    }
  }

  /** A snapshot of the matrix `a` as a sequence of rows. */
  ghost function Table(a: array2<int>): (r: seq<seq<int>>)
    reads a
    ensures |r| == a.Length0 && forall x :: 0 <= x < a.Length0 ==> |r[x]| == a.Length1
    ensures forall x, y :: 0 <= x < a.Length0 && 0 <= y < a.Length1 ==> r[x][y] == a[x, y]
  {
    seq(a.Length0, x reads a requires 0 <= x < a.Length0 =>
      seq(a.Length1, y reads a requires 0 <= y < a.Length1 => a[x, y]))
  }

  /** A table with the shape of `a` and its entries is the snapshot of `a`. */
  lemma TableIs(a: array2<int>, t: seq<seq<int>>)
    requires |t| == a.Length0 && forall x :: 0 <= x < a.Length0 ==> |t[x]| == a.Length1
    requires forall x, y :: 0 <= x < a.Length0 && 0 <= y < a.Length1 ==> t[x][y] == a[x, y]
    ensures Table(a) == t
  {
    forall x | 0 <= x < a.Length0
      ensures Table(a)[x] == t[x]
    {
    }
  }
}
