// Depth-first traversal over visited flags.
module DepthFirst {
  import opened Walks

  // No node of the walk was visited before.
  ghost predicate Unseen(w: Walk, flags: seq<bool>) {
    w.node < |flags| && !flags[w.node] && (w.Step? ==> Unseen(w.before, flags))
  }

  ghost predicate Met(g: Graph, s: nat, u: nat, flags: seq<bool>) {
    exists w :: From(g, s, u, w) && Unseen(w, flags)
  }

  ghost function Open(flags: seq<bool>): set<nat> {
    set i: nat | i < |flags| && !flags[i]
  }

  // All targets of the node are visited.
  ghost predicate Closed(g: Graph, u: nat, flags: seq<bool>)
    requires u < |g|
  {
    forall x :: x in g[u] ==> x < |flags| && flags[x]
  }

  // What one call makes of the flags: it keeps them, adds only nodes it can meet, and leaves no
  // open target behind any node it adds, other than those of except.
  ghost predicate Visited(g: Graph, s: nat, before: seq<bool>, after: seq<bool>, except: set<nat>) {
    && |before| == |after| == |g|
    && (forall u :: 0 <= u < |g| && before[u] ==> after[u])
    && (forall u: nat :: u < |g| && after[u] && !before[u] ==> Met(g, s, u, before))
    && (forall u: nat :: u < |g| && after[u] && !before[u] && u !in except ==> Closed(g, u, after))
  }

  ghost predicate Distinct(s: seq<nat>) {
    forall i, j :: 0 <= i < j < |s| ==> s[i] != s[j]
  }

  // The nodes listed are the ones added.
  ghost predicate Lists(found: seq<nat>, before: seq<bool>, after: seq<bool>) {
    && |before| == |after| && Distinct(found)
    && (forall k :: 0 <= k < |found| ==> found[k] < |after| && after[found[k]] && !before[found[k]])
    && (forall u: nat :: u < |after| && after[u] && !before[u] ==> u in found)
  }

  // The flags with the listed nodes visited as well.
  ghost function Marked(flags: seq<bool>, list: seq<nat>): (r: seq<bool>)
    ensures |r| == |flags|
  {
    seq(|flags|, i requires 0 <= i < |flags| => flags[i] || i in list)
  }

  // Depth first: directly behind node number k of the list stand all the nodes that could be met from
  // it once those before it were visited, and after them none of these.
  ghost predicate BranchAt(g: Graph, found: seq<nat>, k: nat, before: seq<bool>)
    requires k < |found|
  {
    exists n :: k < n <= |found| && Branch(g, found, k, n, before)
  }

  ghost predicate Branch(g: Graph, found: seq<nat>, k: nat, n: nat, before: seq<bool>)
    requires k < n <= |found|
  {
    forall u :: u in found[k..n] <==> Met(g, found[k], u, Marked(before, found[..k]))
  }

  lemma {:induction false} UnseenEarlier(w: Walk, before: seq<bool>, after: seq<bool>)
    requires |before| == |after| && forall u :: 0 <= u < |before| && before[u] ==> after[u]
    requires Unseen(w, after)
    ensures Unseen(w, before)
  {
    if w.Step? {
      UnseenEarlier(w.before, before, after);
    }
  }

  lemma {:induction false} UnseenJoins(x: Walk, y: Walk, flags: seq<bool>)
    requires Unseen(x, flags) && Unseen(y, flags)
    ensures Unseen(Join(x, y), flags)
  {
    if y.Step? {
      UnseenJoins(x, y.before, flags);
    }
  }

  // A call on a target of s can only meet what s can meet.
  lemma MetThrough(g: Graph, s: nat, pos: nat, u: nat, before: seq<bool>, now: seq<bool>)
    requires ValidGraph(g) && s < |g| && pos in g[s] && |before| == |now| == |g| && !before[s]
    requires forall v :: 0 <= v < |g| && before[v] ==> now[v]
    requires Met(g, pos, u, now)
    ensures Met(g, s, u, before)
  {
    var w :| From(g, pos, u, w) && Unseen(w, now);
    UnseenEarlier(w, before, now);
    StartUnseen(w, before);
    var x := Step(At(s), pos);
    assert On(g, At(s)) && Unseen(At(s), before) && Start(At(s)) == s;
    JoinWeighs(g, x, w);
    UnseenJoins(x, w, before);
    assert From(g, s, u, Join(x, w));
  }

  lemma {:induction false} StartUnseen(w: Walk, flags: seq<bool>)
    requires Unseen(w, flags)
    ensures Start(w) < |flags| && !flags[Start(w)]
  {
    if w.Step? {
      StartUnseen(w.before, flags);
    }
  }

  // Everything that can be met has been visited.
  lemma {:induction false} MetIsVisited(g: Graph, s: nat, before: seq<bool>, after: seq<bool>, w: Walk)
    requires Visited(g, s, before, after, {}) && s < |g| && after[s]
    requires On(g, w) && Start(w) == s && Unseen(w, before)
    ensures w.node < |g| && after[w.node]
  {
    if w.Step? {
      MetIsVisited(g, s, before, after, w.before);
    }
  }

  // Appends the nodes that can be met from val without passing a visited node, each of them once.
  method Dfs(g: Graph, val: nat, vec: seq<nat>, visited: array<bool>) returns (re: seq<nat>, ghost found: seq<nat>)
    requires ValidGraph(g) && val < |g| && visited.Length == |g| && !visited[val]
    modifies visited
    ensures re == vec + found && Lists(found, old(visited[..]), visited[..])
    ensures found != [] && found[0] == val
    ensures forall k :: 0 <= k < |found| ==> BranchAt(g, found, k, old(visited[..]))
    ensures Visited(g, val, old(visited[..]), visited[..], {}) && visited[val]
    ensures forall u: nat :: u < |g| ==> (visited[u] <==> old(visited[u]) || Met(g, val, u, old(visited[..])))
    decreases Open(visited[..])
  {
    hide Met, Distinct, BranchAt, Marked;
    ghost var before := visited[..];
    assert val in Open(before);
    re := vec + [val];
    found := [val];
    visited[val] := true;
    StartVisit(g, val, before, visited[..]);
    var rest := g[val].Keys;
    while rest != {}
      invariant rest <= g[val].Keys && visited[val]
      invariant re == vec + found && Lists(found, before, visited[..])
      invariant Visited(g, val, before, visited[..], {val})
      invariant forall x :: x in g[val] && x !in rest ==> x < |g| && visited[x]
      invariant found != [] && found[0] == val
      invariant forall k :: 1 <= k < |found| ==> BranchAt(g, found, k, before)
      decreases rest
    {
      var pos :| pos in rest;
      rest := rest - {pos};
      if !visited[pos] {
        ghost var now := visited[..];
        assert Open(now) < Open(before) by { OpenShrinks(val, before, now); }
        ghost var more;
        re, more := Dfs(g, pos, re, visited);
        VisitedAdds(g, val, pos, before, now, visited[..]);
        ListsAdd(found, more, before, now, visited[..]);
        BranchesAdd(g, found, more, before, now);
        found := found + more;
      }
    }
    AllMetVisited(g, val, before, visited[..]);
    WholeBranch(g, found, before, visited[..]);
  }

  // A longer list has the branches of the shorter one, and those of the call that made it longer.
  lemma BranchesAdd(g: Graph, found: seq<nat>, more: seq<nat>, before: seq<bool>, now: seq<bool>)
    requires Lists(found, before, now) && forall u :: 0 <= u < |before| && before[u] ==> now[u]
    requires forall k :: 1 <= k < |found| ==> BranchAt(g, found, k, before)
    requires forall k :: 0 <= k < |more| ==> BranchAt(g, more, k, now)
    ensures forall k :: 1 <= k < |found| ==> BranchAt(g, found + more, k, before)
    ensures forall k :: |found| <= k < |found + more| ==> BranchAt(g, found + more, k, before)
  {
    hide Met, Marked, Lists;
    var all := found + more;
    forall k | 1 <= k < |found|
      ensures BranchAt(g, all, k, before)
    {
      assert BranchAt(g, found, k, before);
      var n :| k < n <= |found| && Branch(g, found, k, n, before);
      assert all[k..n] == found[k..n] && all[..k] == found[..k] && all[k] == found[k];
      assert Branch(g, all, k, n, before);
    }
    forall k | |found| <= k < |all|
      ensures BranchAt(g, all, k, before)
    {
      var j := k - |found|;
      assert BranchAt(g, more, j, now);
      var n :| j < n <= |more| && Branch(g, more, j, n, now);
      MarkedMore(found, more, j, before, now);
      assert all[k..|found| + n] == more[j..n] && all[k] == more[j];
      assert Branch(g, all, k, |found| + n, before);
    }
  }

  lemma MarkedMore(found: seq<nat>, more: seq<nat>, j: nat, before: seq<bool>, now: seq<bool>)
    requires Lists(found, before, now) && j <= |more|
    requires forall u :: 0 <= u < |before| && before[u] ==> now[u]
    ensures Marked(now, more[..j]) == Marked(before, (found + more)[..|found| + j])
  {
    assert (found + more)[..|found| + j] == found + more[..j];
  }

  // The whole list is the branch of its first node.
  lemma WholeBranch(g: Graph, found: seq<nat>, before: seq<bool>, after: seq<bool>)
    requires found != [] && Lists(found, before, after) && |after| == |g|
    requires forall u: nat :: u < |g| ==> (after[u] <==> before[u] || Met(g, found[0], u, before))
    ensures BranchAt(g, found, 0, before)
  {
    assert Marked(before, []) == before;
    assert found[0..|found|] == found && found[..0] == [];
    forall u
      ensures u in found <==> Met(g, found[0], u, before)
    {
      if Met(g, found[0], u, before) {
        MetIsOpen(g, found[0], u, before);
      }
    }
    assert Branch(g, found, 0, |found|, before);
  }

  lemma MetIsOpen(g: Graph, s: nat, u: nat, flags: seq<bool>)
    requires Met(g, s, u, flags)
    ensures u < |g| && u < |flags| && !flags[u]
  {}

  lemma AllMetVisited(g: Graph, s: nat, before: seq<bool>, after: seq<bool>)
    requires Visited(g, s, before, after, {s}) && s < |g| && after[s]
    requires forall x :: x in g[s] ==> x < |g| && after[x]
    ensures Visited(g, s, before, after, {})
    ensures forall u: nat :: u < |g| ==> (after[u] <==> before[u] || Met(g, s, u, before))
  {
    assert Closed(g, s, after);
    forall u: nat | u < |g| && after[u] && !before[u]
      ensures Closed(g, u, after)
    {
      if u != s {
        assert u !in {s};
      }
    }
    assert Visited(g, s, before, after, {});
    forall u: nat | u < |g| && Met(g, s, u, before)
      ensures after[u]
    {
      var w :| From(g, s, u, w) && Unseen(w, before);
      MetIsVisited(g, s, before, after, w);
    }
  }

  lemma StartVisit(g: Graph, val: nat, before: seq<bool>, after: seq<bool>)
    requires ValidGraph(g) && val < |g| == |before| && !before[val] && after == before[val := true]
    ensures Visited(g, val, before, after, {val}) && Lists([val], before, after)
  {
    assert From(g, val, val, At(val)) && Unseen(At(val), before);
  }

  lemma OpenShrinks(val: nat, before: seq<bool>, now: seq<bool>)
    requires |before| == |now| && val < |now| && now[val] && !before[val]
    requires forall u :: 0 <= u < |before| && before[u] ==> now[u]
    ensures Open(now) < Open(before)
  {
    assert val in Open(before) && val !in Open(now);
  }

  lemma VisitedAdds(g: Graph, s: nat, pos: nat, before: seq<bool>, now: seq<bool>, after: seq<bool>)
    requires ValidGraph(g) && s < |g| == |before| && pos in g[s] && !before[s]
    requires Visited(g, s, before, now, {s}) && Visited(g, pos, now, after, {})
    ensures Visited(g, s, before, after, {s})
  {
    forall u: nat | u < |g| && after[u] && !before[u] && u !in {s}
      ensures Closed(g, u, after)
    {
      if now[u] {
        assert Closed(g, u, now);
      } else {
        assert u !in {};
      }
    }
    forall u: nat | u < |g| && after[u] && !before[u]
      ensures Met(g, s, u, before)
    {
      if !now[u] {
        MetThrough(g, s, pos, u, before, now);
      }
    }
  }

  lemma ListsAdd(found: seq<nat>, more: seq<nat>, before: seq<bool>, now: seq<bool>, after: seq<bool>)
    requires Lists(found, before, now) && Lists(more, now, after)
    requires forall u :: 0 <= u < |before| && before[u] ==> now[u]
    requires forall u :: 0 <= u < |now| && now[u] ==> after[u]
    ensures Lists(found + more, before, after)
  {
    forall u: nat | u < |after| && after[u] && !before[u]
      ensures u in found + more
    {
      assert now[u] ==> u in found;
    }
  }
}
