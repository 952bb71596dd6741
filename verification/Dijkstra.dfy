// Single-source shortest paths with a predecessor array, and reading a path back from it.
module Dijkstra {
  import opened Walks

  // The predecessor of t is settled and its side to t accounts for the distance of t.
  ghost predicate Supported(g: Graph, s: nat, re: seq<real>, flag: seq<bool>, path: seq<int>, t: nat)
    requires |re| == |flag| == |path| == |g| && t < |g|
  {
    if t == s then path[t] == s && re[t] == 0.0
    else
      var p := path[t];
      0 <= p < |g| && flag[p] && re[p] >= 0.0 && t in g[p] && re[p] + g[p][t] == re[t]
  }

  // Either nothing is known about t yet, or a walk of the recorded weight is.
  ghost predicate Sound(g: Graph, s: nat, re: seq<real>, flag: seq<bool>, path: seq<int>, t: nat)
    requires |re| == |flag| == |path| == |g| && t < |g|
  {
    if re[t] < 0.0 then re[t] == -1.0 && path[t] == -1 && !flag[t]
    else Attained(g, s, t, re[t]) && Supported(g, s, re, flag, path, t)
  }

  ghost predicate AllSound(g: Graph, s: nat, re: seq<real>, flag: seq<bool>, path: seq<int>) {
    |re| == |flag| == |path| == |g| && forall t :: 0 <= t < |g| ==> Sound(g, s, re, flag, path, t)
  }

  // Every open target of u is recorded at no more than the way through u.
  ghost predicate Relaxed(g: Graph, re: seq<real>, flag: seq<bool>, u: nat)
    requires ValidGraph(g) && |re| == |flag| == |g| && u < |g|
  {
    forall x :: x in g[u] && !flag[x] ==> 0.0 <= re[x] <= re[u] + g[u][x]
  }

  // Settled nodes have their final distance and have been relaxed from.
  ghost predicate Settled(g: Graph, s: nat, re: seq<real>, flag: seq<bool>)
    requires ValidGraph(g) && |re| == |flag| == |g|
  {
    forall u :: 0 <= u < |g| && flag[u] ==> Bound(g, s, u, re[u]) && Relaxed(g, re, flag, u)
  }

  // Predecessors were settled earlier.
  ghost predicate Ranked(s: nat, flag: seq<bool>, path: seq<int>, rank: seq<nat>, count: nat)
    requires |flag| == |path| == |rank|
  {
    forall t :: 0 <= t < |flag| && flag[t] ==>
      rank[t] < count && (t != s ==> 0 <= path[t] < |flag| && rank[path[t]] < rank[t])
  }

  // A walk that leaves the settled nodes weighs at least as much as some open node's record.
  lemma {:induction false} Escape(g: Graph, s: nat, re: seq<real>, flag: seq<bool>, w: Walk) returns (x: nat)
    requires ValidGraph(g) && |re| == |flag| == |g| && s < |g| && flag[s] && Settled(g, s, re, flag)
    requires On(g, w) && Start(w) == s && w.node < |g| && !flag[w.node]
    ensures x < |g| && !flag[x] && 0.0 <= re[x] <= Weight(g, w)
  {
    match w
    case At(_) =>
      assert false;
    case Step(b, v) =>
      if flag[b.node] {
        assert From(g, s, b.node, b);
        assert Bound(g, s, b.node, re[b.node]) && Relaxed(g, re, flag, b.node);
        x := v;
      } else {
        x := Escape(g, s, re, flag, b);
      }
  }

  // The open node with the least record has its final distance.
  lemma LeastOpenIsFinal(g: Graph, s: nat, re: seq<real>, flag: seq<bool>, next: nat)
    requires ValidGraph(g) && |re| == |flag| == |g| && s < |g| && flag[s] && Settled(g, s, re, flag)
    requires next < |g| && !flag[next]
    requires forall x :: 0 <= x < |g| && !flag[x] && re[x] >= 0.0 ==> re[next] <= re[x]
    ensures Bound(g, s, next, re[next])
  {
    forall w | From(g, s, next, w)
      ensures Weight(g, w) >= re[next]
    {
      var x := Escape(g, s, re, flag, w);
    }
  }

  // When no open node has a record, the open nodes are out of reach.
  lemma OpenUnreachable(g: Graph, s: nat, re: seq<real>, flag: seq<bool>, t: nat)
    requires ValidGraph(g) && |re| == |flag| == |g| && s < |g| && flag[s] && Settled(g, s, re, flag)
    requires forall x :: 0 <= x < |g| && !flag[x] ==> re[x] < 0.0
    requires t < |g| && !flag[t]
    ensures !Reachable(g, s, t)
  {
    if Reachable(g, s, t) {
      var w :| From(g, s, t, w);
      var x := Escape(g, s, re, flag, w);
    }
  }

  lemma Extend(g: Graph, s: nat, u: nat, d: real, v: nat)
    requires ValidGraph(g) && u < |g| && v in g[u] && Attained(g, s, u, d)
    ensures Attained(g, s, v, d + g[u][v])
  {
    var w :| From(g, s, u, w) && Weight(g, w) == d;
    assert From(g, s, v, Step(w, v)) && Weight(g, Step(w, v)) == d + g[u][v];
  }

  // Tries every side of cur, in any order.
  method Relax(g: Graph, s: nat, cur: nat, re0: seq<real>, flag: seq<bool>, path0: seq<int>)
      returns (re: seq<real>, path: seq<int>)
    requires ValidGraph(g) && s < |g| && cur < |g|
    requires AllSound(g, s, re0, flag, path0) && flag[cur] && flag[s]
    ensures AllSound(g, s, re, flag, path)
    ensures forall t :: 0 <= t < |g| && flag[t] ==> re[t] == re0[t] && path[t] == path0[t]
    ensures forall t :: 0 <= t < |g| && re0[t] >= 0.0 ==> 0.0 <= re[t] <= re0[t]
    ensures Relaxed(g, re, flag, cur)
  {
    re, path := re0, path0;
    var rest := g[cur].Keys;
    while rest != {}
      invariant rest <= g[cur].Keys
      invariant AllSound(g, s, re, flag, path)
      invariant forall t :: 0 <= t < |g| && flag[t] ==> re[t] == re0[t] && path[t] == path0[t]
      invariant forall t :: 0 <= t < |g| && re0[t] >= 0.0 ==> 0.0 <= re[t] <= re0[t]
      invariant forall x :: x in g[cur] && x !in rest && !flag[x] ==> 0.0 <= re[x] <= re[cur] + g[cur][x]
      decreases rest
    {
      var pos :| pos in rest;
      rest := rest - {pos};
      if !flag[pos] {
        assert Sound(g, s, re, flag, path, cur);
        var sideLen := (if re[cur] < 0.0 then 0.0 else re[cur]) + g[cur][pos];
        if re[pos] < 0.0 || re[pos] > sideLen {
          Extend(g, s, cur, re[cur], pos);
          ImproveKeepsSound(g, s, re, flag, path, cur, pos);
          re := re[pos := sideLen];
          path := path[pos := cur];
        }
      }
    }
  }

  lemma ImproveKeepsSound(g: Graph, s: nat, re: seq<real>, flag: seq<bool>, path: seq<int>, cur: nat, pos: nat)
    requires ValidGraph(g) && s < |g| && cur < |g|
    requires AllSound(g, s, re, flag, path) && flag[cur] && flag[s]
    requires pos in g[cur] && !flag[pos] && Attained(g, s, pos, re[cur] + g[cur][pos])
    ensures AllSound(g, s, re[pos := re[cur] + g[cur][pos]], flag, path[pos := cur])
  {
    var re1, path1 := re[pos := re[cur] + g[cur][pos]], path[pos := cur];
    assert Sound(g, s, re, flag, path, cur);
    forall t | 0 <= t < |g|
      ensures Sound(g, s, re1, flag, path1, t)
    {
      assert Sound(g, s, re, flag, path, t);
    }
  }

  // The open node with the least record, or cur when there is none.
  method ChooseNext(re: seq<real>, flag: seq<bool>, cur: nat) returns (next: nat)
    requires |re| == |flag| && cur < |re| && flag[cur]
    ensures next < |re|
    ensures next != cur ==> !flag[next] && re[next] >= 0.0
    ensures next != cur ==> forall x :: 0 <= x < |re| && !flag[x] && re[x] >= 0.0 ==> re[next] <= re[x]
    ensures next == cur ==> forall x :: 0 <= x < |re| && !flag[x] ==> re[x] < 0.0
  {
    next := cur;
    var minLen := -1.0;
    for ii := 0 to |re|
      invariant next < |re|
      invariant minLen < 0.0 ==> next == cur && forall x :: 0 <= x < ii && !flag[x] ==> re[x] < 0.0
      invariant minLen >= 0.0 ==> !flag[next] && re[next] == minLen
      invariant minLen >= 0.0 ==> forall x :: 0 <= x < ii && !flag[x] && re[x] >= 0.0 ==> minLen <= re[x]
    {
      if !flag[ii] && re[ii] >= 0.0 && (minLen < 0.0 || minLen > re[ii]) {
        minLen := re[ii];
        next := ii;
      }
    }
  }

  ghost function Open(flag: seq<bool>): set<nat> {
    set i: nat | i < |flag| && !flag[i]
  }

  // What the two arrays mean when the algorithm has finished.
  ghost predicate ShortestTree(g: Graph, s: nat, re: seq<real>, path: seq<int>, rank: seq<nat>) {
    && |re| == |path| == |rank| == |g| && s < |g|
    && path[s] == s && re[s] == 0.0
    && forall t :: 0 <= t < |g| ==> Branch(g, s, re, path, rank, t)
  }

  // t is out of reach, or its predecessor lies on a shortest walk to it and has a lower rank.
  ghost predicate Branch(g: Graph, s: nat, re: seq<real>, path: seq<int>, rank: seq<nat>, t: nat)
    requires |re| == |path| == |rank| == |g| && t < |g|
  {
    if re[t] < 0.0 then path[t] == -1
    else t == s || (0 <= path[t] < |g| && re[path[t]] >= 0.0 && t in g[path[t]]
                    && re[path[t]] + g[path[t]][t] == re[t] && rank[path[t]] < rank[t])
  }

  method ShortestPaths(g: Graph, s: nat) returns (re: seq<real>, path: seq<int>, ghost rank: seq<nat>)
    requires ValidGraph(g) && s < |g|
    ensures |re| == |g| && forall t :: 0 <= t < |g| ==> Distance(g, s, t, re[t])
    ensures ShortestTree(g, s, re, path, rank)
  {
    re := seq(|g|, i => -1.0);
    var flag := seq(|g|, i => false);
    path := seq(|g|, i => -1);
    rank := seq(|g|, i => 0);
    ghost var count := 0;
    var cur: nat, next: nat := s, s;
    re := re[s := 0.0];
    path := path[s := s];
    StartSound(g, s, re, flag, path);
    while true
      invariant |re| == |path| == |flag| == |rank| == |g| && cur < |g| && next < |g|
      invariant AllSound(g, s, re, flag, path) && Settled(g, s, re, flag)
      invariant Ranked(s, flag, path, rank, count)
      invariant !flag[next] && re[next] >= 0.0 && Bound(g, s, next, re[next])
      invariant flag[s] || next == s
      decreases Open(flag)
    {
      cur := next;
      assert cur in Open(flag);
      SettleKeeps(g, s, re, flag, path, rank, count, cur);
      flag := flag[cur := true];
      rank := rank[cur := count];
      count := count + 1;
      ghost var re0, path0 := re, path;
      re, path := Relax(g, s, cur, re, flag, path);
      RelaxSettles(g, s, re0, re, flag, cur);
      next := ChooseNext(re, flag, cur);
      if next == cur {
        break;
      }
      LeastOpenIsFinal(g, s, re, flag, next);
    }
    Finish(g, s, re, flag, path, rank, count);
  }

  lemma StartSound(g: Graph, s: nat, re: seq<real>, flag: seq<bool>, path: seq<int>)
    requires ValidGraph(g) && s < |g| && |re| == |flag| == |path| == |g|
    requires re[s] == 0.0 && path[s] == s
    requires forall t :: 0 <= t < |g| ==> !flag[t] && (t != s ==> re[t] == -1.0 && path[t] == -1)
    ensures AllSound(g, s, re, flag, path) && Settled(g, s, re, flag) && Bound(g, s, s, 0.0)
  {
    assert From(g, s, s, At(s)) && Weight(g, At(s)) == 0.0;
    forall w | From(g, s, s, w)
      ensures Weight(g, w) >= 0.0
    {
      WeightNonNegative(g, w);
    }
  }

  // Marking the chosen node as settled.
  lemma SettleKeeps(g: Graph, s: nat, re: seq<real>, flag: seq<bool>, path: seq<int>, rank: seq<nat>,
                    count: nat, cur: nat)
    requires ValidGraph(g) && s < |g| && cur < |g| && |rank| == |g|
    requires AllSound(g, s, re, flag, path) && Settled(g, s, re, flag) && Ranked(s, flag, path, rank, count)
    requires !flag[cur] && re[cur] >= 0.0 && Bound(g, s, cur, re[cur]) && (flag[s] || cur == s)
    ensures var flag1, rank1 := flag[cur := true], rank[cur := count];
            AllSound(g, s, re, flag1, path) && Ranked(s, flag1, path, rank1, count + 1)
            && forall u :: 0 <= u < |g| && flag1[u] ==>
                 Bound(g, s, u, re[u]) && (u != cur ==> Relaxed(g, re, flag1, u))
  {
    var flag1, rank1 := flag[cur := true], rank[cur := count];
    assert Sound(g, s, re, flag, path, cur);
    forall t | 0 <= t < |g|
      ensures Sound(g, s, re, flag1, path, t)
    {
      assert Sound(g, s, re, flag, path, t);
    }
    forall t | 0 <= t < |g| && flag1[t]
      ensures rank1[t] < count + 1 && (t != s ==> 0 <= path[t] < |flag| && rank1[path[t]] < rank1[t])
    {
      assert Sound(g, s, re, flag, path, t);
    }
  }

  // Lowering open records keeps the relaxations that were done before.
  lemma RelaxSettles(g: Graph, s: nat, re0: seq<real>, re: seq<real>, flag: seq<bool>, cur: nat)
    requires ValidGraph(g) && |re0| == |re| == |flag| == |g| && cur < |g| && Relaxed(g, re, flag, cur)
    requires forall u :: 0 <= u < |g| && flag[u] ==>
               Bound(g, s, u, re0[u]) && (u != cur ==> Relaxed(g, re0, flag, u))
    requires forall t :: 0 <= t < |g| && flag[t] ==> re[t] == re0[t]
    requires forall t :: 0 <= t < |g| && re0[t] >= 0.0 ==> 0.0 <= re[t] <= re0[t]
    ensures Settled(g, s, re, flag)
  {
    forall u | 0 <= u < |g| && flag[u]
      ensures Relaxed(g, re, flag, u)
    {
      assert u != cur ==> Relaxed(g, re0, flag, u);
    }
  }

  lemma Finish(g: Graph, s: nat, re: seq<real>, flag: seq<bool>, path: seq<int>, rank: seq<nat>, count: nat)
    requires ValidGraph(g) && s < |g| && |rank| == |g|
    requires AllSound(g, s, re, flag, path) && Settled(g, s, re, flag) && Ranked(s, flag, path, rank, count)
    requires flag[s] && forall x :: 0 <= x < |g| && !flag[x] ==> re[x] < 0.0
    ensures forall t :: 0 <= t < |g| ==> Distance(g, s, t, re[t])
    ensures ShortestTree(g, s, re, path, rank)
  {
    assert Sound(g, s, re, flag, path, s);
    forall t | 0 <= t < |g|
      ensures Distance(g, s, t, re[t]) && Branch(g, s, re, path, rank, t)
    {
      assert Sound(g, s, re, flag, path, t);
      if flag[t] {
        var w :| From(g, s, t, w) && Weight(g, w) == re[t];
      } else {
        OpenUnreachable(g, s, re, flag, t);
      }
    }
  }

  // ---------------------------------------------------------------- reading a path back

  // The walk that ends in dst and whose earlier nodes are listed backwards.
  function Backwards(nodes: seq<nat>, dst: nat): Walk {
    if nodes == [] then At(dst) else Step(Backwards(nodes[1..], nodes[0]), dst)
  }

  lemma {:induction false} BackwardsGrows(g: Graph, nodes: seq<nat>, dst: nat, u: nat)
    requires ValidGraph(g) && On(g, Backwards(nodes, dst)) && u < |g| && Start(Backwards(nodes, dst)) in g[u]
    ensures var w, x := Backwards(nodes, dst), Backwards(nodes + [u], dst);
            From(g, u, dst, x) && Weight(g, x) == g[u][Start(w)] + Weight(g, w)
  {
    if nodes == [] {
      assert [u][1..] == [];
      assert Backwards([u], dst) == Step(At(u), dst);
    } else {
      BackwardsGrows(g, nodes[1..], nodes[0], u);
      assert (nodes + [u])[1..] == nodes[1..] + [u];
    }
  }

  // Follows the predecessors down to the source. The nodes come out backwards, without dst itself.
  method PathTo(g: Graph, s: nat, dst: nat, distance: seq<real>, path: seq<int>, ghost rank: seq<nat>)
      returns (re: seq<nat>)
    requires ValidGraph(g) && ShortestTree(g, s, distance, path, rank)
    requires dst < |g| && path[dst] >= 0
    ensures dst == s ==> re == [s]
    ensures dst != s ==> From(g, s, dst, Backwards(re, dst)) && Weight(g, Backwards(re, dst)) == distance[dst]
  {
    var cur := dst;
    assert Branch(g, s, distance, path, rank, cur);
    re := [path[cur]];
    cur := path[cur];
    if dst != s {
      assert [] + [cur] == [cur];
      BackwardsGrows(g, [], dst, cur);
      assert Branch(g, s, distance, path, rank, cur);
      while cur != path[cur]
        invariant 0 <= cur < |g| && distance[cur] >= 0.0 && 0 <= path[cur] < |g|
        invariant From(g, cur, dst, Backwards(re, dst))
        invariant distance[cur] + Weight(g, Backwards(re, dst)) == distance[dst]
        decreases rank[cur]
      {
        assert Branch(g, s, distance, path, rank, cur);
        BackwardsGrows(g, re, dst, path[cur]);
        cur := path[cur];
        re := re + [cur];
        assert Branch(g, s, distance, path, rank, cur);
      }
      assert Branch(g, s, distance, path, rank, cur);
    }
  }
}
