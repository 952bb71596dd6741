// All-pairs shortest distances by the in-place triple loop over a matrix.
module Floyd {
  import opened Walks

  // The adjacency matrix: 0 on the diagonal, unless a node has a side to itself, and -1 where
  // there is no side.
  ghost predicate IsAdjacency(g: Graph, m: array2<real>)
    reads m
  {
    m.Length0 == m.Length1 == |g|
    && forall i, j :: 0 <= i < |g| && 0 <= j < |g| ==> m[i, j] == Direct(g, i, j)
  }

  function Direct(g: Graph, i: nat, j: nat): real
    requires i < |g|
  {
    if j in g[i] then g[i][j] else if i == j then 0.0 else -1.0
  }

  method CreateAdjMatrix(g: Graph) returns (m: array2<real>)
    requires ValidGraph(g)
    ensures fresh(m) && IsAdjacency(g, m)
    ensures forall i, j :: 0 <= i < |g| && 0 <= j < |g| ==>
              m[i, j] == if j in g[i] then g[i][j] else if i == j then 0.0 else -1.0
  {
    m := new real[|g|, |g|]((i, j) => -1.0);
    for ii := 0 to |g|
      invariant forall i, j :: 0 <= i < ii && 0 <= j < |g| ==> m[i, j] == Direct(g, i, j)
      invariant forall i, j :: ii <= i < |g| && 0 <= j < |g| ==> m[i, j] == -1.0
    {
      m[ii, ii] := 0.0;
      var rest := g[ii].Keys;
      while rest != {}
        invariant rest <= g[ii].Keys
        invariant forall i, j :: 0 <= i < ii && 0 <= j < |g| ==> m[i, j] == Direct(g, i, j)
        invariant forall i, j :: ii < i < |g| && 0 <= j < |g| ==> m[i, j] == -1.0
        invariant forall j :: 0 <= j < |g| && j !in rest ==> m[ii, j] == Direct(g, ii, j)
        invariant forall j :: 0 <= j < |g| && j in rest && j != ii ==> m[ii, j] == -1.0
        decreases rest
      {
        var pos :| pos in rest;
        rest := rest - {pos};
        m[ii, pos] := g[ii][pos];
      }
    }
  }

  // d is the least weight of a walk from i to j whose inner nodes are below k, or -1.
  ghost predicate Through(g: Graph, i: nat, j: nat, k: nat, d: real) {
    if d < 0.0 then d == -1.0 && forall w :: From(g, i, j, w) ==> !Inner(w, k)
    else Attained(g, i, j, d) && forall w :: From(g, i, j, w) && Inner(w, k) ==> Weight(g, w) >= d
  }

  lemma DirectWalks(g: Graph, i: nat, j: nat)
    requires ValidGraph(g) && i < |g| && j < |g| && i != j
    ensures Through(g, i, j, 0, Direct(g, i, j))
  {
    assert Start(At(i)) == i && Weight(g, At(i)) == 0.0;
    if j in g[i] {
      var w := Step(At(i), j);
      assert On(g, At(i)) && Start(w) == i;
      assert From(g, i, j, w) && Weight(g, w) == g[i][j];
    }
    forall w | From(g, i, j, w) && Inner(w, 0)
      ensures j in g[i] && Weight(g, w) == g[i][j]
    {
      assert w.before == At(Start(w.before));
      assert w == Step(At(i), j);
    }
  }

  // What one comparison makes of an entry.
  function Improved(dij: real, dik: real, dkj: real): real {
    if dik >= 0.0 && dkj >= 0.0 && (dij < 0.0 || dij > dik + dkj) then dik + dkj else dij
  }

  // Allowing k as an inner node: a walk through k splits there.
  lemma ImprovedIsThrough(g: Graph, i: nat, j: nat, k: nat, dij: real, dik: real, dkj: real)
    requires ValidGraph(g) && i != j && i != k && k != j
    requires Through(g, i, j, k, dij) && Through(g, i, k, k, dik) && Through(g, k, j, k, dkj)
    ensures Through(g, i, j, k + 1, Improved(dij, dik, dkj))
  {
    var d := Improved(dij, dik, dkj);
    if dik >= 0.0 && dkj >= 0.0 {
      JoinAttained(g, i, k, j, dik, dkj);
    }
    forall w | From(g, i, j, w) && Inner(w, k + 1)
      ensures d >= 0.0 && Weight(g, w) >= d
    {
      if Visits(w, k) {
        var x, y := SplitAt(g, w, k);
        assert dik >= 0.0 && dkj >= 0.0;
      } else {
        InnerSkips(w, k);
      }
    }
  }

  lemma JoinAttained(g: Graph, i: nat, k: nat, j: nat, d: real, e: real)
    requires Attained(g, i, k, d) && Attained(g, k, j, e)
    ensures Attained(g, i, j, d + e)
  {
    var x :| From(g, i, k, x) && Weight(g, x) == d;
    var y :| From(g, k, j, y) && Weight(g, y) == e;
    JoinWeighs(g, x, y);
    assert From(g, i, j, Join(x, y));
  }

  // Entries in row and column k gain nothing from k itself.
  lemma PivotIsThrough(g: Graph, i: nat, j: nat, k: nat, d: real)
    requires ValidGraph(g) && i != j && (i == k || j == k)
    requires Through(g, i, j, k, d)
    ensures Through(g, i, j, k + 1, d)
  {
    forall w | From(g, i, j, w) && Inner(w, k + 1)
      ensures d >= 0.0 && Weight(g, w) >= d
    {
      StartVisited(w);
      var x, y := SplitAt(g, w, k);
      WeightNonNegative(g, x);
      WeightNonNegative(g, y);
      if i == k {
        assert From(g, i, j, y);
      } else {
        assert From(g, i, j, x);
      }
    }
  }

  lemma {:induction false} StartVisited(w: Walk)
    ensures Visits(w, Start(w)) && Visits(w, w.node)
  {
    match w
    case At(_) =>
    case Step(b, v) => StartVisited(b);
  }

  lemma ThroughAll(g: Graph, i: nat, j: nat, d: real)
    requires ValidGraph(g) && i < |g| && j < |g| && Through(g, i, j, |g|, d)
    ensures Distance(g, i, j, d)
  {
    forall w | From(g, i, j, w)
      ensures Inner(w, |g|)
    {
      InnerOfGraph(g, w);
    }
    if d >= 0.0 {
      var w :| From(g, i, j, w) && Weight(g, w) == d;
    }
  }

  // ---------------------------------------------------------------- the triple loop

  // Every entry off the diagonal is final for inner nodes below k up to position (ii, jj), in
  // reading order, for one more inner node, and the pivot row and column have not been touched.
  ghost predicate Progress(g: Graph, m: array2<real>, kk: nat, ii: nat, jj: nat)
    requires m.Length0 == m.Length1 == |g|
    reads m
  {
    && (forall i: nat, j: nat :: i < |g| && j < |g| && i != j && (i < ii || (i == ii && j < jj)) ==>
          Through(g, i, j, kk + 1, m[i, j]))
    && (forall i: nat, j: nat :: i < |g| && j < |g| && i != j && !(i < ii || (i == ii && j < jj)) ==>
          Through(g, i, j, kk, m[i, j]))
    && (forall i: nat, j: nat :: i < |g| && j < |g| && i != j && (i == kk || j == kk) ==>
          Through(g, i, j, kk, m[i, j]))
    && (forall i: nat :: i < |g| ==> m[i, i] == if i in g[i] then g[i][i] else 0.0)
  }

  // Two walks that meet in k have weights that add up to d.
  ghost predicate Meets(g: Graph, i: nat, k: nat, j: nat, d: real) {
    exists x, y :: From(g, i, k, x) && From(g, k, j, y) && Weight(g, x) + Weight(g, y) == d
  }

  // A path entry: i itself for the side from i to j, or a node between them that the weight d goes through.
  ghost predicate Hop(g: Graph, i: nat, j: nat, p: int, d: real)
    requires i < |g|
  {
    (p == i && j in g[i] && d == g[i][j]) || (0 <= p < |g| && p != i && p != j && Meets(g, i, p, j, d))
  }

  // The path matrix has an entry exactly where there is a distance, and it says where that came from.
  ghost predicate PathsMatch(g: Graph, m: array2<real>, p: array2<int>)
    requires m.Length0 == m.Length1 == p.Length0 == p.Length1 == |g|
    reads m, p
  {
    forall i: nat, j: nat :: i < |g| && j < |g| ==>
      ((m[i, j] >= 0.0 || m[i, j] == -1.0) && (p[i, j] >= 0 <==> m[i, j] >= 0.0)
       && (i == j && m[i, j] >= 0.0 ==> p[i, j] == i)
       && (i != j && m[i, j] >= 0.0 ==> Hop(g, i, j, p[i, j], m[i, j])))
  }

  lemma MeetsInPivot(g: Graph, i: nat, k: nat, j: nat, d: real, e: real)
    requires Through(g, i, k, k, d) && Through(g, k, j, k, e) && d >= 0.0 && e >= 0.0
    ensures Meets(g, i, k, j, d + e)
  {
    var x :| From(g, i, k, x) && Weight(g, x) == d;
    var y :| From(g, k, j, y) && Weight(g, y) == e;
  }

  // In the end the distances to and from the node of a path entry add up.
  lemma HopIsExact(g: Graph, i: nat, k: nat, j: nat, dij: real, dik: real, dkj: real)
    requires Distance(g, i, j, dij) && Distance(g, i, k, dik) && Distance(g, k, j, dkj) && Meets(g, i, k, j, dij)
    ensures dik >= 0.0 && dkj >= 0.0 && dij == dik + dkj
  {
    var x, y :| From(g, i, k, x) && From(g, k, j, y) && Weight(g, x) + Weight(g, y) == dij;
    JoinAttained(g, i, k, j, dik, dkj);
    var w :| From(g, i, j, w) && Weight(g, w) == dik + dkj;
  }

  // One entry of the matrix.
  method ImproveEntry(g: Graph, m: array2<real>, p: array2<int>, kk: nat, ii: nat, jj: nat)
    requires ValidGraph(g) && m.Length0 == m.Length1 == p.Length0 == p.Length1 == |g|
    requires kk < |g| && ii < |g| && jj < |g| && ii != kk
    requires Progress(g, m, kk, ii, jj) && PathsMatch(g, m, p)
    modifies m, p
    ensures Progress(g, m, kk, ii, jj + 1) && PathsMatch(g, m, p)
  {
    hide Through, Meets;
    if ii == jj {
      return;
    }
    if jj == kk {
      PivotIsThrough(g, ii, jj, kk, m[ii, jj]);
      return;
    }
    ImprovedIsThrough(g, ii, jj, kk, m[ii, jj], m[ii, kk], m[kk, jj]);
    if m[ii, kk] >= 0.0 && m[kk, jj] >= 0.0 {
      var d := m[ii, kk] + m[kk, jj];
      if m[ii, jj] < 0.0 || m[ii, jj] > d {
        MeetsInPivot(g, ii, kk, jj, m[ii, kk], m[kk, jj]);
        m[ii, jj] := d;
        p[ii, jj] := kk;
      }
    }
  }

  // One row of the matrix, for one pivot.
  method ImproveRow(g: Graph, m: array2<real>, p: array2<int>, kk: nat, ii: nat)
    requires ValidGraph(g) && m.Length0 == m.Length1 == p.Length0 == p.Length1 == |g|
    requires kk < |g| && ii < |g|
    requires Progress(g, m, kk, ii, 0) && PathsMatch(g, m, p)
    modifies m, p
    ensures Progress(g, m, kk, ii + 1, 0) && PathsMatch(g, m, p)
  {
    if ii == kk {
      forall j: nat | j < |g| && j != ii
        ensures Through(g, ii, j, kk + 1, m[ii, j])
      {
        PivotIsThrough(g, ii, j, kk, m[ii, j]);
      }
      hide Through;
      return;
    }
    hide Through;
    for jj := 0 to |g|
      invariant Progress(g, m, kk, ii, jj) && PathsMatch(g, m, p)
    {
      ImproveEntry(g, m, p, kk, ii, jj);
    }
  }

  method AllDistances(g: Graph) returns (m: array2<real>, p: array2<int>)
    requires ValidGraph(g)
    ensures fresh(m) && fresh(p) && m.Length0 == m.Length1 == p.Length0 == p.Length1 == |g|
    ensures forall i: nat, j: nat :: i < |g| && j < |g| && i != j ==> Distance(g, i, j, m[i, j])
    ensures forall i: nat :: i < |g| ==> m[i, i] == (if i in g[i] then g[i][i] else 0.0) && p[i, i] == i
    ensures forall i: nat, j: nat :: i < |g| && j < |g| && i != j ==> (p[i, j] >= 0 <==> Reachable(g, i, j))
    ensures forall i: nat, j: nat :: i < |g| && j < |g| && i != j && p[i, j] >= 0 ==>
              if p[i, j] == i then j in g[i] && m[i, j] == g[i][j]
              else p[i, j] < |g| && p[i, j] != j && m[i, p[i, j]] >= 0.0 && m[p[i, j], j] >= 0.0
                   && m[i, j] == m[i, p[i, j]] + m[p[i, j], j]
  {
    hide Through, Distance, Meets, Hop;
    m := CreateAdjMatrix(g);
    p := InitPaths(g, m);
    StartProgress(g, m);
    for kk := 0 to |g|
      invariant Progress(g, m, kk, 0, 0) && PathsMatch(g, m, p)
    {
      Phase(g, m, p, kk);
    }
    EndProgress(g, m);
    HopsAddUp(g, m, p);
    Signs(g, m, p);
  }

  lemma StartProgress(g: Graph, m: array2<real>)
    requires ValidGraph(g) && IsAdjacency(g, m)
    ensures Progress(g, m, 0, 0, 0)
  {
    forall i: nat, j: nat | i < |g| && j < |g| && i != j
      ensures Through(g, i, j, 0, m[i, j])
    {
      DirectWalks(g, i, j);
    }
    hide Through;
  }

  lemma EndProgress(g: Graph, m: array2<real>)
    requires ValidGraph(g) && m.Length0 == m.Length1 == |g| && Progress(g, m, |g|, 0, 0)
    ensures forall i: nat, j: nat :: i < |g| && j < |g| && i != j ==> Distance(g, i, j, m[i, j])
  {
    hide Through, Distance;
    forall i: nat, j: nat | i < |g| && j < |g| && i != j
      ensures Distance(g, i, j, m[i, j])
    {
      ThroughAll(g, i, j, m[i, j]);
    }
  }

  lemma Signs(g: Graph, m: array2<real>, p: array2<int>)
    requires m.Length0 == m.Length1 == p.Length0 == p.Length1 == |g| && PathsMatch(g, m, p)
    requires forall i: nat, j: nat :: i < |g| && j < |g| && i != j ==> Distance(g, i, j, m[i, j])
    ensures forall i: nat, j: nat :: i < |g| && j < |g| && i != j ==> (p[i, j] >= 0 <==> Reachable(g, i, j))
  {}

  // One round of the outer loop.
  method Phase(g: Graph, m: array2<real>, p: array2<int>, kk: nat)
    requires ValidGraph(g) && m.Length0 == m.Length1 == p.Length0 == p.Length1 == |g| && kk < |g|
    requires Progress(g, m, kk, 0, 0) && PathsMatch(g, m, p)
    modifies m, p
    ensures Progress(g, m, kk + 1, 0, 0) && PathsMatch(g, m, p)
  {
    hide Through, Hop;
    for ii := 0 to |g|
      invariant Progress(g, m, kk, ii, 0) && PathsMatch(g, m, p)
    {
      ImproveRow(g, m, p, kk, ii);
    }
  }

  lemma HopsAddUp(g: Graph, m: array2<real>, p: array2<int>)
    requires m.Length0 == m.Length1 == p.Length0 == p.Length1 == |g| && PathsMatch(g, m, p)
    requires forall i: nat, j: nat :: i < |g| && j < |g| && i != j ==> Distance(g, i, j, m[i, j])
    ensures forall i: nat, j: nat :: i < |g| && j < |g| && i != j && p[i, j] >= 0 ==>
              if p[i, j] == i then j in g[i] && m[i, j] == g[i][j]
              else p[i, j] < |g| && p[i, j] != j && m[i, p[i, j]] >= 0.0 && m[p[i, j], j] >= 0.0
                   && m[i, j] == m[i, p[i, j]] + m[p[i, j], j]
  {
    hide Distance, Meets;
    forall i: nat, j: nat | i < |g| && j < |g| && i != j && p[i, j] >= 0 && p[i, j] != i
      ensures p[i, j] < |g| && p[i, j] != j && m[i, p[i, j]] >= 0.0 && m[p[i, j], j] >= 0.0
      ensures m[i, j] == m[i, p[i, j]] + m[p[i, j], j]
    {
      var k: nat := p[i, j];
      HopIsExact(g, i, k, j, m[i, j], m[i, k], m[k, j]);
    }
  }

  method InitPaths(g: Graph, m: array2<real>) returns (p: array2<int>)
    requires ValidGraph(g) && IsAdjacency(g, m)
    ensures fresh(p) && p.Length0 == m.Length0 && p.Length1 == m.Length1 && PathsMatch(g, m, p)
  {
    p := new int[m.Length0, m.Length1]((i, j) => -1);
    for ii := 0 to m.Length0
      invariant forall i, j :: 0 <= i < ii && 0 <= j < m.Length1 ==> p[i, j] == if m[i, j] >= 0.0 then i else -1
      invariant forall i, j :: ii <= i < m.Length0 && 0 <= j < m.Length1 ==> p[i, j] == -1
    {
      for jj := 0 to m.Length1
        invariant forall i, j :: 0 <= i < ii && 0 <= j < m.Length1 ==> p[i, j] == if m[i, j] >= 0.0 then i else -1
        invariant forall i, j :: ii < i < m.Length0 && 0 <= j < m.Length1 ==> p[i, j] == -1
        invariant forall j :: 0 <= j < jj ==> p[ii, j] == if m[ii, j] >= 0.0 then ii else -1
        invariant forall j :: jj <= j < m.Length1 ==> p[ii, j] == -1
      {
        if m[ii, jj] >= 0.0 {
          p[ii, jj] := ii;
        }
      }
    }
  }
}
