// Weighted directed graphs and walks in them. Node i of the graph is the i-th node of the
// vector that callers pass around, and its sides map the targets to the weights.
module Walks {
  type Graph = seq<map<nat, real>>

  // Every side leads to a node of the graph and no weight is negative.
  ghost predicate ValidGraph(g: Graph) {
    forall u, v :: 0 <= u < |g| && v in g[u] ==> v < |g| && g[u][v] >= 0.0
  }

  // A walk grows at its far end; node is where it currently ends.
  datatype Walk = At(node: nat) | Step(before: Walk, node: nat)

  function Start(w: Walk): nat {
    match w
    case At(u) => u
    case Step(b, _) => Start(b)
  }

  ghost predicate On(g: Graph, w: Walk) {
    match w
    case At(u) => u < |g|
    case Step(b, v) => On(g, b) && b.node < |g| && v in g[b.node] && v < |g|
  }

  function Weight(g: Graph, w: Walk): real
    requires On(g, w)
  {
    match w
    case At(_) => 0.0
    case Step(b, v) => Weight(g, b) + g[b.node][v]
  }

  ghost predicate From(g: Graph, s: nat, t: nat, w: Walk) {
    On(g, w) && Start(w) == s && w.node == t
  }

  // Some walk from s to t has weight d.
  ghost predicate Attained(g: Graph, s: nat, t: nat, d: real) {
    exists w :: From(g, s, t, w) && Weight(g, w) == d
  }

  // No walk from s to t weighs less than d.
  ghost predicate Bound(g: Graph, s: nat, t: nat, d: real) {
    forall w :: From(g, s, t, w) ==> Weight(g, w) >= d
  }

  ghost predicate Reachable(g: Graph, s: nat, t: nat) {
    exists w :: From(g, s, t, w)
  }

  // d is the least weight of a walk from s to t, or -1 when there is none.
  ghost predicate Distance(g: Graph, s: nat, t: nat, d: real) {
    if Reachable(g, s, t) then d >= 0.0 && Attained(g, s, t, d) && Bound(g, s, t, d) else d == -1.0
  }

  lemma {:induction false} WeightNonNegative(g: Graph, w: Walk)
    requires ValidGraph(g) && On(g, w)
    ensures Weight(g, w) >= 0.0
  {
    match w
    case At(_) =>
    case Step(b, v) => WeightNonNegative(g, b);
  }

  // ---------------------------------------------------------------- joining and splitting

  function Join(x: Walk, y: Walk): Walk {
    match y
    case At(_) => x
    case Step(b, v) => Step(Join(x, b), v)
  }

  lemma {:induction false} JoinWeighs(g: Graph, x: Walk, y: Walk)
    requires On(g, x) && On(g, y) && x.node == Start(y)
    ensures var j := Join(x, y); From(g, Start(x), y.node, j) && Weight(g, j) == Weight(g, x) + Weight(g, y)
  {
    match y
    case At(_) =>
    case Step(b, v) => JoinWeighs(g, x, b);
  }

  predicate Visits(w: Walk, k: nat) {
    w.node == k || (w.Step? && Visits(w.before, k))
  }

  // All nodes strictly inside the walk are below k.
  predicate Inner(w: Walk, k: nat) {
    w.At? || w.before.At? || (w.before.node < k && Inner(w.before, k))
  }

  lemma {:induction false} InnerSkips(w: Walk, k: nat)
    requires Inner(w, k + 1) && (w.At? || !Visits(w.before, k))
    ensures Inner(w, k)
  {
    if w.Step? && w.before.Step? {
      InnerSkips(w.before, k);
    }
  }

  lemma {:induction false} InnerOfGraph(g: Graph, w: Walk)
    requires On(g, w)
    ensures Inner(w, |g|)
  {
    match w
    case At(_) =>
    case Step(b, v) =>
      InnerOfGraph(g, b);
      assert b.node < |g|;
  }

  // A walk through k splits at its first and last visit, losing what lies between them.
  lemma {:induction false} SplitAt(g: Graph, w: Walk, k: nat) returns (x: Walk, y: Walk)
    requires ValidGraph(g) && On(g, w) && Visits(w, k) && Inner(w, k + 1)
    ensures From(g, Start(w), k, x) && Inner(x, k)
    ensures From(g, k, w.node, y) && Inner(y, k)
    ensures Weight(g, x) + Weight(g, y) <= Weight(g, w)
  {
    match w
    case At(_) =>
      x, y := w, w;
    case Step(b, v) =>
      if Visits(b, k) {
        var z;
        x, z := SplitAt(g, b, k);
        WeightNonNegative(g, z);
        y := if v == k then At(k) else Step(if b.node == k then At(k) else z, v);
      } else {
        InnerSkips(w, k);
        x, y := w, At(k);
      }
  }
}
