/** Stage 1, `calculate_distance_matrix`: the all-pairs shortest-distance
    matrix over every location named by an edge, filled with the direct
    distances and then closed in place by the Floyd-Warshall triple loop. */
module DistanceMatrix {
  import opened Sequences

  /** A matrix entry: a finite distance, or infinity when no route is known. */
  datatype Dist = Fin(r: real) | Inf

  /** Floating-point addition on these values: a sum involving infinity is infinity. */
  function Add(a: Dist, b: Dist): Dist {
    if a.Fin? && b.Fin? then Fin(a.r + b.r) else Inf
  }

  /** Floating-point `<`: infinity is below nothing, and every finite value is below it. */
  predicate Less(a: Dist, b: Dist) {
    a.Fin? && (b.Inf? || a.r < b.r)
  }

  predicate AtMost(a: Dist, b: Dist) {
    !Less(b, a)
  }

  predicate NonNegative(a: Dist) {
    a.Inf? || a.r >= 0.0
  }

  /** One relaxation step: the route through the intermediate location
      replaces the entry only when it is strictly shorter. */
  function Relax(current: Dist, through: Dist): Dist {
    if Less(through, current) then through else current
  }

  /** One row of the input table: columns From, To and Distance. */
  datatype Edge = Edge(from: int, to: int, distance: real)

  predicate NonNegativeEdges(edges: seq<Edge>) {
    forall e :: e in edges ==> e.distance >= 0.0
  }

  predicate NoSelfLoops(edges: seq<Edge>) {
    forall e :: e in edges ==> e.from != e.to
  }

  /** The From column followed by the To column. */
  function Endpoints(edges: seq<Edge>): seq<int> {
    seq(|edges|, k requires 0 <= k < |edges| => edges[k].from) +
    seq(|edges|, k requires 0 <= k < |edges| => edges[k].to)
  }

  /** The matrix labels: the distinct values of Endpoints in first-seen order. */
  function Locations(edges: seq<Edge>): (locs: seq<int>)
    ensures NoDup(locs)
    ensures forall x :: x in locs <==> exists e :: e in edges && (e.from == x || e.to == x)
  {
    var ends := Endpoints(edges);
    assert forall x :: x in ends <==> exists e :: e in edges && (e.from == x || e.to == x) by {
      forall x | x in ends ensures exists e :: e in edges && (e.from == x || e.to == x) {
        var k :| 0 <= k < |ends| && ends[k] == x;
        if k < |edges| { assert edges[k] in edges; } else { assert edges[k - |edges|] in edges; }
      }
      forall e | e in edges ensures e.from in ends && e.to in ends {
        var k :| 0 <= k < |edges| && edges[k] == e;
        assert ends[k] == e.from && ends[|edges| + k] == e.to;
      }
    }
    Dedup(ends)
  }

  /** Whether edge `e` joins `x` and `y`, in either direction. */
  predicate Connects(e: Edge, x: int, y: int) {
    (e.from == x && e.to == y) || (e.from == y && e.to == x)
  }

  /** The entry for labels `x`, `y` once every edge has been written both ways
      into the matrix that starts as infinity with a zero diagonal: the last
      edge joining the two wins. */
  function Direct(edges: seq<Edge>, x: int, y: int): Dist
    decreases |edges|
  {
    if edges == [] then (if x == y then Fin(0.0) else Inf)
    else if Connects(edges[|edges| - 1], x, y) then Fin(edges[|edges| - 1].distance)
    else Direct(edges[..|edges| - 1], x, y)
  }

  /** The textbook closure: the matrix after the intermediates `locs[..k]` have been tried. */
  function Closure(edges: seq<Edge>, locs: seq<int>, k: nat, i: nat, j: nat): Dist
    requires k <= |locs| && i < |locs| && j < |locs|
    decreases k
  {
    if k == 0 then Direct(edges, locs[i], locs[j])
    else
      Relax(Closure(edges, locs, k - 1, i, j),
            Add(Closure(edges, locs, k - 1, i, k - 1), Closure(edges, locs, k - 1, k - 1, j)))
  }

  /** Duplicate edges: the entry is the distance of the last edge joining the pair. */
  lemma {:induction false} DirectLastWins(edges: seq<Edge>, p: nat, x: int, y: int)
    requires p < |edges| && Connects(edges[p], x, y)
    requires forall q :: p < q < |edges| ==> !Connects(edges[q], x, y)
    ensures Direct(edges, x, y) == Fin(edges[p].distance)
  {
    if p < |edges| - 1 {
      DirectLastWins(edges[..|edges| - 1], p, x, y);
    }
  }

  /** Every edge is written in both directions, so the filled matrix is symmetric. */
  lemma {:induction false} DirectSymmetric(edges: seq<Edge>, x: int, y: int)
    ensures Direct(edges, x, y) == Direct(edges, y, x)
  {
    if edges != [] {
      DirectSymmetric(edges[..|edges| - 1], x, y);
    }
  }

  lemma {:induction false} DirectNonNegative(edges: seq<Edge>, x: int, y: int)
    requires NonNegativeEdges(edges)
    ensures NonNegative(Direct(edges, x, y))
  {
    if edges != [] {
      assert edges[|edges| - 1] in edges;
      DirectNonNegative(edges[..|edges| - 1], x, y);
    }
  }

  /** Without self-loops the diagonal keeps the zero it was filled with. */
  lemma {:induction false} DirectDiagonal(edges: seq<Edge>, x: int)
    requires NoSelfLoops(edges)
    ensures Direct(edges, x, x) == Fin(0.0)
  {
    if edges != [] {
      assert edges[|edges| - 1] in edges;
      DirectDiagonal(edges[..|edges| - 1], x);
    }
  }

  /** With non-negative edges no entry of the closure is ever negative. */
  lemma {:induction false} ClosureNonNegative(edges: seq<Edge>, locs: seq<int>, k: nat, i: nat, j: nat)
    requires NonNegativeEdges(edges)
    requires k <= |locs| && i < |locs| && j < |locs|
    ensures NonNegative(Closure(edges, locs, k, i, j))
  {
    if k == 0 {
      DirectNonNegative(edges, locs[i], locs[j]);
    } else {
      ClosureNonNegative(edges, locs, k - 1, i, j);
      ClosureNonNegative(edges, locs, k - 1, i, k - 1);
      ClosureNonNegative(edges, locs, k - 1, k - 1, j);
    }
  }

  /** Phase `k` leaves row `k` and column `k` alone: this is why relaxing in
      place computes the textbook closure. */
  lemma ClosurePivotStable(edges: seq<Edge>, locs: seq<int>, k: nat, a: nat)
    requires NonNegativeEdges(edges)
    requires k < |locs| && a < |locs|
    ensures Closure(edges, locs, k + 1, a, k) == Closure(edges, locs, k, a, k)
    ensures Closure(edges, locs, k + 1, k, a) == Closure(edges, locs, k, k, a)
  {
    ClosureNonNegative(edges, locs, k, k, k);
  }

  /** The closure is symmetric at every phase. */
  lemma {:induction false} ClosureSymmetric(edges: seq<Edge>, locs: seq<int>, k: nat, i: nat, j: nat)
    requires k <= |locs| && i < |locs| && j < |locs|
    ensures Closure(edges, locs, k, i, j) == Closure(edges, locs, k, j, i)
  {
    if k == 0 {
      DirectSymmetric(edges, locs[i], locs[j]);
    } else {
      ClosureSymmetric(edges, locs, k - 1, i, j);
      ClosureSymmetric(edges, locs, k - 1, i, k - 1);
      ClosureSymmetric(edges, locs, k - 1, k - 1, j);
    }
  }

  /** Relaxation only lowers entries: each is at most the direct distance written for the pair. */
  lemma {:induction false} ClosureAtMostDirect(edges: seq<Edge>, locs: seq<int>, k: nat, i: nat, j: nat)
    requires k <= |locs| && i < |locs| && j < |locs|
    ensures AtMost(Closure(edges, locs, k, i, j), Direct(edges, locs[i], locs[j]))
  {
    if k > 0 {
      ClosureAtMostDirect(edges, locs, k - 1, i, j);
    }
  }

  /** A pair joined by duplicate edges ends at most at the last such edge's distance. */
  lemma ClosureAtMostLastEdge(edges: seq<Edge>, locs: seq<int>, p: nat, i: nat, j: nat)
    requires i < |locs| && j < |locs|
    requires p < |edges| && Connects(edges[p], locs[i], locs[j])
    requires forall q :: p < q < |edges| ==> !Connects(edges[q], locs[i], locs[j])
    ensures AtMost(Closure(edges, locs, |locs|, i, j), Fin(edges[p].distance))
  {
    DirectLastWins(edges, p, locs[i], locs[j]);
    ClosureAtMostDirect(edges, locs, |locs|, i, j);
  }

  /** Without self-loops and with non-negative edges the diagonal stays exactly zero. */
  lemma {:induction false} ClosureDiagonal(edges: seq<Edge>, locs: seq<int>, k: nat, i: nat)
    requires NonNegativeEdges(edges) && NoSelfLoops(edges)
    requires k <= |locs| && i < |locs|
    ensures Closure(edges, locs, k, i, i) == Fin(0.0)
  {
    if k == 0 {
      DirectDiagonal(edges, locs[i]);
    } else {
      ClosureDiagonal(edges, locs, k - 1, i);
      ClosureNonNegative(edges, locs, k - 1, i, k - 1);
      ClosureNonNegative(edges, locs, k - 1, k - 1, i);
    }
  }

  /** After phase `m` the triangle inequality holds through every intermediate below `m`. */
  lemma {:induction false} ClosureTriangle(edges: seq<Edge>, locs: seq<int>, m: nat, i: nat, j: nat, k: nat)
    requires NonNegativeEdges(edges)
    requires k < m <= |locs| && i < |locs| && j < |locs|
    ensures AtMost(Closure(edges, locs, m, i, j),
                   Add(Closure(edges, locs, m, i, k), Closure(edges, locs, m, k, j)))
  {
    var p := m - 1;
    ClosurePivotStable(edges, locs, p, i);
    ClosurePivotStable(edges, locs, p, j);
    if k < p {
      ClosurePivotStable(edges, locs, p, k);
      ClosureTriangle(edges, locs, p, i, j, k);
      ClosureTriangle(edges, locs, p, p, j, k);
      ClosureTriangle(edges, locs, p, i, p, k);
      ClosureNonNegative(edges, locs, p, p, k);
      ClosureNonNegative(edges, locs, p, k, p);
      RelaxKeepsTriangle(Closure(edges, locs, p, i, j), Closure(edges, locs, p, i, k), Closure(edges, locs, p, k, j),
                         Closure(edges, locs, p, i, p), Closure(edges, locs, p, p, j),
                         Closure(edges, locs, p, p, k), Closure(edges, locs, p, k, p));
    }
  }

  /** The algebra of one phase through pivot `p`: if the triangle inequality
      held through an earlier pivot `k` before the phase, it still holds after. */
  lemma RelaxKeepsTriangle(ij: Dist, ik: Dist, kj: Dist, ip: Dist, pj: Dist, pk: Dist, kp: Dist)
    requires AtMost(ij, Add(ik, kj))
    requires AtMost(pj, Add(pk, kj)) && AtMost(ip, Add(ik, kp))
    requires NonNegative(pk) && NonNegative(kp)
    ensures AtMost(Relax(ij, Add(ip, pj)), Add(Relax(ik, Add(ip, pk)), Relax(kj, Add(kp, pj))))
  {
  }

  /** The finished matrix is symmetric and satisfies the triangle inequality for all i, j, k. */
  lemma ClosedMatrixProperties(edges: seq<Edge>, locs: seq<int>, i: nat, j: nat, k: nat)
    requires NonNegativeEdges(edges)
    requires i < |locs| && j < |locs| && k < |locs|
    ensures Closure(edges, locs, |locs|, i, j) == Closure(edges, locs, |locs|, j, i)
    ensures AtMost(Closure(edges, locs, |locs|, i, j),
                   Add(Closure(edges, locs, |locs|, i, k), Closure(edges, locs, |locs|, k, j)))
  {
    ClosureSymmetric(edges, locs, |locs|, i, j);
    ClosureTriangle(edges, locs, |locs|, i, j, k);
  }

  /** No edge joins a location inside `side` to one outside it. */
  predicate NoCrossing(edges: seq<Edge>, side: set<int>) {
    forall e :: e in edges ==> (e.from in side <==> e.to in side)
  }

  /** Labels on opposite sides of a cut no edge crosses are never written directly. */
  lemma {:induction false} DirectCut(edges: seq<Edge>, side: set<int>, x: int, y: int)
    requires NoCrossing(edges, side) && (x in side) != (y in side)
    ensures Direct(edges, x, y) == Inf
  {
    if edges != [] {
      var init := edges[..|edges| - 1];
      assert edges[|edges| - 1] in edges;
      assert forall e :: e in init ==> e in edges;
      DirectCut(init, side, x, y);
    }
  }

  /** Entries between two locations that no chain of edges joins stay infinite
      after every phase: here, locations on opposite sides of a cut no edge crosses. */
  lemma {:induction false} ClosureCut(edges: seq<Edge>, locs: seq<int>, side: set<int>, k: nat, i: nat, j: nat)
    requires k <= |locs| && i < |locs| && j < |locs|
    requires NoCrossing(edges, side) && (locs[i] in side) != (locs[j] in side)
    ensures Closure(edges, locs, k, i, j) == Inf
  {
    if k == 0 {
      DirectCut(edges, side, locs[i], locs[j]);
    } else {
      ClosureCut(edges, locs, side, k - 1, i, j);
      if (locs[k - 1] in side) == (locs[i] in side) {
        ClosureCut(edges, locs, side, k - 1, k - 1, j);
      } else {
        ClosureCut(edges, locs, side, k - 1, i, k - 1);
      }
    }
  }

  /** The relaxation triple loop, run in place on `m`. */
  method FloydWarshall(ghost edges: seq<Edge>, ghost locs: seq<int>, m: array2<Dist>)
    requires NonNegativeEdges(edges)
    requires m.Length0 == |locs| && m.Length1 == |locs|
    requires forall i, j :: 0 <= i < |locs| && 0 <= j < |locs| ==> m[i, j] == Closure(edges, locs, 0, i, j)
    modifies m
    ensures forall i, j :: 0 <= i < |locs| && 0 <= j < |locs| ==> m[i, j] == Closure(edges, locs, |locs|, i, j)
    ensures forall i, j :: 0 <= i < |locs| && 0 <= j < |locs| ==> AtMost(m[i, j], old(m[i, j]))
  {
    var n := m.Length0;
    for k := 0 to n
      invariant forall a, b :: 0 <= a < n && 0 <= b < n ==> m[a, b] == Closure(edges, locs, k, a, b)
    {
      for i := 0 to n
        invariant forall a, b :: 0 <= a < n && 0 <= b < n ==>
                    m[a, b] == if a < i then Closure(edges, locs, k + 1, a, b) else Closure(edges, locs, k, a, b)
      {
        RelaxRow(edges, locs, m, k, i);
      }
    }
    forall i, j | 0 <= i < n && 0 <= j < n ensures AtMost(m[i, j], old(m[i, j])) {
      ClosureAtMostDirect(edges, locs, n, i, j);
    }
  }

  /** The innermost loop of phase `k`: row `i` is relaxed through pivot `k`,
      the rows above it already have been, the rows below it not yet. */
  method RelaxRow(ghost edges: seq<Edge>, ghost locs: seq<int>, m: array2<Dist>, k: nat, i: nat)
    requires NonNegativeEdges(edges)
    requires m.Length0 == |locs| && m.Length1 == |locs| && k < |locs| && i < |locs|
    requires forall a, b :: 0 <= a < |locs| && 0 <= b < |locs| ==>
               m[a, b] == if a < i then Closure(edges, locs, k + 1, a, b) else Closure(edges, locs, k, a, b)
    modifies m
    ensures forall a, b :: 0 <= a < |locs| && 0 <= b < |locs| ==>
              m[a, b] == if a <= i then Closure(edges, locs, k + 1, a, b) else Closure(edges, locs, k, a, b)
  {
    var n := m.Length1;
    ClosurePivotStable(edges, locs, k, i);
    for j := 0 to n
      invariant forall a, b :: 0 <= a < n && 0 <= b < n ==>
                  m[a, b] == if a < i || (a == i && b < j) then Closure(edges, locs, k + 1, a, b)
                             else Closure(edges, locs, k, a, b)
    {
      ClosurePivotStable(edges, locs, k, j);
      var current, through := m[i, j], Add(m[i, k], m[k, j]);
      assert current == Closure(edges, locs, k, i, j);
      assert through == Add(Closure(edges, locs, k, i, k), Closure(edges, locs, k, k, j));
      if Less(through, current) {
        m[i, j] := through;
      }
      assert m[i, j] == Closure(edges, locs, k + 1, i, j);
    }
  }

  /** Writing edge `e` into cells (a, b) and (b, a) of the matrix indexed by
      the distinct labels `locs` extends the direct matrix by that edge. */
  lemma DirectWritten(edges: seq<Edge>, locs: seq<int>, e: nat, a: nat, b: nat, i: nat, j: nat)
    requires NoDup(locs) && e < |edges| && a < |locs| && b < |locs| && i < |locs| && j < |locs|
    requires locs[a] == edges[e].from && locs[b] == edges[e].to
    ensures Direct(edges[..e + 1], locs[i], locs[j]) ==
              if (i == a && j == b) || (i == b && j == a) then Fin(edges[e].distance)
              else Direct(edges[..e], locs[i], locs[j])
  {
    assert edges[..e + 1][..e] == edges[..e];
    assert (i == a && j == b) || (i == b && j == a) <==> Connects(edges[e], locs[i], locs[j]);
  }

  /** The whole stage: labels in first-seen order, then the closed matrix. */
  method CalculateDistanceMatrix(edges: seq<Edge>) returns (locs: seq<int>, m: array2<Dist>)
    requires NonNegativeEdges(edges)
    ensures locs == Locations(edges)
    ensures m.Length0 == |locs| && m.Length1 == |locs|
    ensures forall i, j :: 0 <= i < |locs| && 0 <= j < |locs| ==> m[i, j] == Closure(edges, locs, |locs|, i, j)
  {
    locs := Locations(edges);
    var n := |locs|;
    m := new Dist[n, n]((i, j) => if i == j then Fin(0.0) else Inf);
    for e := 0 to |edges|
      invariant forall i, j :: 0 <= i < n && 0 <= j < n ==> m[i, j] == Direct(edges[..e], locs[i], locs[j])
    {
      var edge := edges[e];
      assert edge in edges;
      var a := IndexOf(locs, edge.from);
      var b := IndexOf(locs, edge.to);
      m[a, b] := Fin(edge.distance);
      m[b, a] := Fin(edge.distance);
      forall i, j | 0 <= i < n && 0 <= j < n
        ensures m[i, j] == Direct(edges[..e + 1], locs[i], locs[j])
      {
        DirectWritten(edges, locs, e, a, b, i, j);
      }
    }
    assert edges[..|edges|] == edges;
    FloydWarshall(edges, locs, m);
  }

  /** Two edges: A-B of 10 and B-C of 5, with A, B, C labelled 1, 2, 3. */
  const ExampleEdges: seq<Edge> := [Edge(1, 2, 10.0), Edge(2, 3, 5.0)]

  lemma ExampleLocations()
    ensures Locations(ExampleEdges) == [1, 2, 3]
  {
    var ends: seq<int> := [1, 2, 2, 3];
    assert Endpoints(ExampleEdges) == ends;
    assert Dedup(ends[..1]) == [1];
    assert Dedup(ends[..2]) == [1, 2] by { assert ends[..2][..1] == ends[..1]; }
    assert Dedup(ends[..3]) == [1, 2] by { assert ends[..3][..2] == ends[..2]; }
    assert ends[..4][..3] == ends[..3];
  }

  lemma ExampleDirect()
    ensures Direct(ExampleEdges, 1, 2) == Fin(10.0) && Direct(ExampleEdges, 2, 1) == Fin(10.0)
    ensures Direct(ExampleEdges, 2, 3) == Fin(5.0) && Direct(ExampleEdges, 1, 3) == Inf
  {
    var first := ExampleEdges[..1];
    assert first == [Edge(1, 2, 10.0)] && first[..0] == [];
    assert Direct(first, 1, 3) == Inf;
    assert Direct(first, 1, 2) == Fin(10.0) && Direct(first, 2, 1) == Fin(10.0);
  }

  /** The closure of the two edges joins A and C at 15, both ways, and the
      diagonal stays zero. */
  lemma ClosureExample()
    ensures var locs := Locations(ExampleEdges);
            locs == [1, 2, 3] &&
            Closure(ExampleEdges, locs, 3, 0, 2) == Fin(15.0) &&
            Closure(ExampleEdges, locs, 3, 2, 0) == Fin(15.0) &&
            Closure(ExampleEdges, locs, 3, 1, 1) == Fin(0.0)
  {
    var edges, locs := ExampleEdges, [1, 2, 3];
    ExampleLocations();
    ExampleDirect();
    assert NonNegativeEdges(edges) && NoSelfLoops(edges);
    ClosureDiagonal(edges, locs, 0, 0);
    ClosureDiagonal(edges, locs, 2, 2);
    ClosureDiagonal(edges, locs, 3, 1);
    var c0, c1 := Closure(edges, locs, 0, 0, 1), Closure(edges, locs, 0, 1, 2);
    assert c0 == Fin(10.0) && c1 == Fin(5.0) && Closure(edges, locs, 0, 0, 2) == Inf;
    assert Closure(edges, locs, 0, 1, 0) == Fin(10.0);
    assert Closure(edges, locs, 1, 0, 1) == Fin(10.0);
    assert Closure(edges, locs, 1, 1, 2) == Fin(5.0);
    assert Closure(edges, locs, 1, 0, 2) == Inf;
    assert Closure(edges, locs, 2, 0, 2) == Fin(15.0);
    ClosureSymmetric(edges, locs, 3, 0, 2);
  }
}
