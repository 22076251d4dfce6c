/** Stage 2, `unroll_distance_matrix`: a row-major scan of the distance
    matrix that emits one (id_start, id_end, distance) row per off-diagonal
    finite entry. */
module Unroll {
  import opened Sequences
  import opened DistanceMatrix

  /** One row of the unrolled table. */
  datatype DistancePair = DistancePair(id_start: int, id_end: int, distance: real)

  /** A square table of entries with `n` rows of `n` columns. */
  predicate Square(g: seq<seq<Dist>>, n: nat) {
    |g| == n && forall i :: 0 <= i < n ==> |g[i]| == n
  }

  /** The matrix read row by row. */
  function Grid(m: array2<Dist>): (g: seq<seq<Dist>>)
    reads m
    ensures |g| == m.Length0
    ensures forall i :: 0 <= i < |g| ==> |g[i]| == m.Length1
    ensures forall i, j :: 0 <= i < m.Length0 && 0 <= j < m.Length1 ==> g[i][j] == m[i, j]
  {
    seq(m.Length0, i requires 0 <= i < m.Length0 reads m =>
      seq(m.Length1, j requires 0 <= j < m.Length1 reads m => m[i, j]))
  }

  /** Whether the scan emits a row for cell (i, j): different labels and a finite entry. */
  predicate Emits(locs: seq<int>, g: seq<seq<Dist>>, i: nat, j: nat)
    requires Square(g, |locs|) && i < |locs| && j < |locs|
  {
    locs[i] != locs[j] && g[i][j].Fin?
  }

  /** The row emitted for cell (i, j). */
  function PairAt(locs: seq<int>, g: seq<seq<Dist>>, i: nat, j: nat): DistancePair
    requires Square(g, |locs|) && i < |locs| && j < |locs| && g[i][j].Fin?
  {
    DistancePair(locs[i], locs[j], g[i][j].r)
  }

  function CellRows(locs: seq<int>, g: seq<seq<Dist>>, i: nat, j: nat): seq<DistancePair>
    requires Square(g, |locs|) && i < |locs| && j < |locs|
  {
    if Emits(locs, g, i, j) then [PairAt(locs, g, i, j)] else []
  }

  /** The rows emitted for cells (i, 0) .. (i, j - 1). */
  function RowRows(locs: seq<int>, g: seq<seq<Dist>>, i: nat, j: nat): seq<DistancePair>
    requires Square(g, |locs|) && i < |locs| && j <= |locs|
    decreases j
  {
    if j == 0 then [] else RowRows(locs, g, i, j - 1) + CellRows(locs, g, i, j - 1)
  }

  /** The rows emitted for matrix rows 0 .. i - 1. */
  function Unrolled(locs: seq<int>, g: seq<seq<Dist>>, i: nat): seq<DistancePair>
    requires Square(g, |locs|) && i <= |locs|
    decreases i
  {
    if i == 0 then [] else Unrolled(locs, g, i - 1) + RowRows(locs, g, i - 1, |locs|)
  }

  function Unroll(locs: seq<int>, g: seq<seq<Dist>>): seq<DistancePair>
    requires Square(g, |locs|)
  {
    Unrolled(locs, g, |locs|)
  }

  /** The scan of the matrix labelled `locs`, as nested loops appending to a list. */
  method UnrollDistanceMatrix(locs: seq<int>, m: array2<Dist>) returns (rows: seq<DistancePair>)
    requires m.Length0 == |locs| && m.Length1 == |locs|
    ensures Square(Grid(m), |locs|)
    ensures rows == Unroll(locs, Grid(m))
  {
    ghost var g := Grid(m);
    var n := |locs|;
    rows := [];
    for i := 0 to n
      invariant rows == Unrolled(locs, g, i)
    {
      for j := 0 to n
        invariant rows == Unrolled(locs, g, i) + RowRows(locs, g, i, j)
      {
        if locs[i] != locs[j] {
          var distance := m[i, j];
          if distance.Fin? {
            rows := rows + [DistancePair(locs[i], locs[j], distance.r)];
          }
        }
      }
    }
  }

  lemma {:induction false} RowRowsMembers(locs: seq<int>, g: seq<seq<Dist>>, i: nat, j: nat)
    requires Square(g, |locs|) && i < |locs| && j <= |locs|
    ensures forall r :: r in RowRows(locs, g, i, j) <==>
              exists b :: 0 <= b < j && Emits(locs, g, i, b) && r == PairAt(locs, g, i, b)
  {
    if j > 0 {
      RowRowsMembers(locs, g, i, j - 1);
    }
  }

  lemma {:induction false} UnrolledMembers(locs: seq<int>, g: seq<seq<Dist>>, i: nat)
    requires Square(g, |locs|) && i <= |locs|
    ensures forall r :: r in Unrolled(locs, g, i) <==>
              exists a, b :: 0 <= a < i && 0 <= b < |locs| && Emits(locs, g, a, b) && r == PairAt(locs, g, a, b)
  {
    if i > 0 {
      UnrolledMembers(locs, g, i - 1);
      RowRowsMembers(locs, g, i - 1, |locs|);
    }
  }

  /** The unrolled table holds exactly one row per emitted cell, so no row
      pairs a label with itself and every distance is finite. */
  lemma UnrollMembers(locs: seq<int>, g: seq<seq<Dist>>)
    requires Square(g, |locs|)
    ensures forall r :: r in Unroll(locs, g) <==>
              exists a, b :: 0 <= a < |locs| && 0 <= b < |locs| && Emits(locs, g, a, b) && r == PairAt(locs, g, a, b)
    ensures forall r :: r in Unroll(locs, g) ==> r.id_start != r.id_end
  {
    UnrolledMembers(locs, g, |locs|);
  }

  /** Matrix row-major order of two rows, by the positions of their labels. */
  predicate RowMajorBefore(locs: seq<int>, r: DistancePair, s: DistancePair)
    requires r.id_start in locs && r.id_end in locs && s.id_start in locs && s.id_end in locs
  {
    IndexOf(locs, r.id_start) < IndexOf(locs, s.id_start) ||
    (IndexOf(locs, r.id_start) == IndexOf(locs, s.id_start) && IndexOf(locs, r.id_end) < IndexOf(locs, s.id_end))
  }

  predicate InRowMajorOrder(locs: seq<int>, rows: seq<DistancePair>) {
    && (forall r :: r in rows ==> r.id_start in locs && r.id_end in locs)
    && (forall p, q :: 0 <= p < q < |rows| ==> RowMajorBefore(locs, rows[p], rows[q]))
  }

  lemma OrderedConcat(locs: seq<int>, xs: seq<DistancePair>, ys: seq<DistancePair>)
    requires InRowMajorOrder(locs, xs) && InRowMajorOrder(locs, ys)
    requires forall x, y :: x in xs && y in ys ==> RowMajorBefore(locs, x, y)
    ensures InRowMajorOrder(locs, xs + ys)
  {
    var zs := xs + ys;
    forall p, q | 0 <= p < q < |zs| ensures RowMajorBefore(locs, zs[p], zs[q]) {
      if q < |xs| {
        assert zs[p] == xs[p] && zs[q] == xs[q];
      } else if p >= |xs| {
        assert zs[p] == ys[p - |xs|] && zs[q] == ys[q - |xs|];
      } else {
        assert zs[p] in xs && zs[q] in ys;
      }
    }
  }

  lemma {:induction false} RowRowsOrdered(locs: seq<int>, g: seq<seq<Dist>>, i: nat, j: nat)
    requires NoDup(locs) && Square(g, |locs|) && i < |locs| && j <= |locs|
    ensures InRowMajorOrder(locs, RowRows(locs, g, i, j))
    ensures forall r :: r in RowRows(locs, g, i, j) ==>
              r.id_start in locs && r.id_end in locs && IndexOf(locs, r.id_start) == i && IndexOf(locs, r.id_end) < j
  {
    if j > 0 {
      RowRowsOrdered(locs, g, i, j - 1);
      RowRowsMembers(locs, g, i, j - 1);
      IndexOfNoDup(locs, i);
      IndexOfNoDup(locs, j - 1);
      forall r | r in RowRows(locs, g, i, j - 1)
        ensures r.id_start in locs && r.id_end in locs && IndexOf(locs, r.id_start) == i && IndexOf(locs, r.id_end) < j
      {
      }
      OrderedConcat(locs, RowRows(locs, g, i, j - 1), CellRows(locs, g, i, j - 1));
    }
  }

  lemma {:induction false} UnrolledOrdered(locs: seq<int>, g: seq<seq<Dist>>, i: nat)
    requires NoDup(locs) && Square(g, |locs|) && i <= |locs|
    ensures InRowMajorOrder(locs, Unrolled(locs, g, i))
    ensures forall r :: r in Unrolled(locs, g, i) ==> r.id_start in locs && IndexOf(locs, r.id_start) < i
  {
    if i > 0 {
      UnrolledOrdered(locs, g, i - 1);
      RowRowsOrdered(locs, g, i - 1, |locs|);
      OrderedConcat(locs, Unrolled(locs, g, i - 1), RowRows(locs, g, i - 1, |locs|));
    }
  }

  /** Rows come out in row-major order over the location order. */
  lemma UnrollOrder(locs: seq<int>, g: seq<seq<Dist>>)
    requires NoDup(locs) && Square(g, |locs|)
    ensures InRowMajorOrder(locs, Unroll(locs, g))
  {
    UnrolledOrdered(locs, g, |locs|);
  }

  /** The off-diagonal finite cells of the first `i` rows. */
  function FiniteCellsBefore(g: seq<seq<Dist>>, n: nat, i: nat): set<(nat, nat)>
    requires Square(g, n) && i <= n
  {
    set a: nat, b: nat | a < i && b < n && a != b && g[a][b].Fin? :: (a, b)
  }

  /** The off-diagonal finite cells of row `i` before column `j`. */
  function FiniteCellsInRow(g: seq<seq<Dist>>, n: nat, i: nat, j: nat): set<(nat, nat)>
    requires Square(g, n) && i < n && j <= n
  {
    set b: nat | b < j && i != b && g[i][b].Fin? :: (i, b)
  }

  /** The number of off-diagonal finite cells in row `i` before column `j`. */
  function FiniteInRowCount(g: seq<seq<Dist>>, n: nat, i: nat, j: nat): nat
    requires Square(g, n) && i < n && j <= n
  {
    if j == 0 then 0
    else FiniteInRowCount(g, n, i, j - 1) + if i != j - 1 && g[i][j - 1].Fin? then 1 else 0
  }

  /** The number of off-diagonal finite cells in the first `i` rows. */
  function FiniteBeforeCount(g: seq<seq<Dist>>, n: nat, i: nat): nat
    requires Square(g, n) && i <= n
  {
    if i == 0 then 0 else FiniteBeforeCount(g, n, i - 1) + FiniteInRowCount(g, n, i - 1, n)
  }

  lemma {:induction false} RowRowsCount(locs: seq<int>, g: seq<seq<Dist>>, i: nat, j: nat)
    requires NoDup(locs) && Square(g, |locs|) && i < |locs| && j <= |locs|
    ensures |RowRows(locs, g, i, j)| == FiniteInRowCount(g, |locs|, i, j)
  {
    if j > 0 {
      RowRowsCount(locs, g, i, j - 1);
      if i != j - 1 {
        assert locs[i] != locs[j - 1];
      }
    }
  }

  lemma {:induction false} UnrolledCount(locs: seq<int>, g: seq<seq<Dist>>, i: nat)
    requires NoDup(locs) && Square(g, |locs|) && i <= |locs|
    ensures |Unrolled(locs, g, i)| == FiniteBeforeCount(g, |locs|, i)
  {
    if i > 0 {
      UnrolledCount(locs, g, i - 1);
      RowRowsCount(locs, g, i - 1, |locs|);
    }
  }

  lemma {:induction false} FiniteInRowSize(g: seq<seq<Dist>>, n: nat, i: nat, j: nat)
    requires Square(g, n) && i < n && j <= n
    ensures |FiniteCellsInRow(g, n, i, j)| == FiniteInRowCount(g, n, i, j)
  {
    if j == 0 {
      assert FiniteCellsInRow(g, n, i, 0) == {};
    } else {
      FiniteInRowSize(g, n, i, j - 1);
      var before, after := FiniteCellsInRow(g, n, i, j - 1), FiniteCellsInRow(g, n, i, j);
      if i != j - 1 && g[i][j - 1].Fin? {
        assert after == before + {(i, j - 1)};
      } else {
        assert after == before;
      }
    }
  }

  /** The finite cells of the first `i` rows: those of the first `i - 1`
      rows and, apart from them, those of row `i - 1`. */
  lemma FiniteCellsSplit(g: seq<seq<Dist>>, n: nat, i: nat)
    requires Square(g, n) && 0 < i <= n
    ensures FiniteCellsBefore(g, n, i) == FiniteCellsBefore(g, n, i - 1) + FiniteCellsInRow(g, n, i - 1, n)
    ensures FiniteCellsBefore(g, n, i - 1) * FiniteCellsInRow(g, n, i - 1, n) == {}
  {
    var all, before, row := FiniteCellsBefore(g, n, i), FiniteCellsBefore(g, n, i - 1), FiniteCellsInRow(g, n, i - 1, n);
    forall c | c in all ensures c in before + row {
      var (a, b) := c;
      if a < i - 1 {
        assert c in before;
      } else {
        assert c in row;
      }
    }
    forall c | c in row ensures c in all && c !in before {
    }
  }

  /** Counting a disjoint union part by part. */
  lemma DisjointUnionSize(a: set<(nat, nat)>, b: set<(nat, nat)>, ab: set<(nat, nat)>, x: nat, y: nat)
    requires ab == a + b && a * b == {} && x == |a| && y == |b|
    ensures |ab| == x + y
  {
  }

  lemma {:induction false} FiniteBeforeSize(g: seq<seq<Dist>>, n: nat, i: nat)
    requires Square(g, n) && i <= n
    ensures |FiniteCellsBefore(g, n, i)| == FiniteBeforeCount(g, n, i)
  {
    if i == 0 {
      assert FiniteCellsBefore(g, n, 0) == {};
    } else {
      FiniteBeforeSize(g, n, i - 1);
      FiniteInRowSize(g, n, i - 1, n);
      FiniteCellsSplit(g, n, i);
      DisjointUnionSize(FiniteCellsBefore(g, n, i - 1), FiniteCellsInRow(g, n, i - 1, n), FiniteCellsBefore(g, n, i),
                        FiniteBeforeCount(g, n, i - 1), FiniteInRowCount(g, n, i - 1, n));
    }
  }

  /** The off-diagonal finite entries of the matrix. */
  function FiniteOffDiagonal(g: seq<seq<Dist>>, n: nat): set<(nat, nat)>
    requires Square(g, n)
  {
    FiniteCellsBefore(g, n, n)
  }

  /** The row count equals the number of off-diagonal finite entries. */
  lemma UnrollCount(locs: seq<int>, g: seq<seq<Dist>>)
    requires NoDup(locs) && Square(g, |locs|)
    ensures |Unroll(locs, g)| == |FiniteOffDiagonal(g, |locs|)|
  {
    UnrolledCount(locs, g, |locs|);
    FiniteBeforeSize(g, |locs|, |locs|);
  }

  /** A symmetric matrix unrolls into mirrored pairs: (a, b, d) comes with (b, a, d). */
  lemma UnrollMirrored(locs: seq<int>, g: seq<seq<Dist>>, r: DistancePair)
    requires Square(g, |locs|)
    requires forall a, b :: 0 <= a < |locs| && 0 <= b < |locs| ==> g[a][b] == g[b][a]
    requires r in Unroll(locs, g)
    ensures DistancePair(r.id_end, r.id_start, r.distance) in Unroll(locs, g)
  {
    UnrollMembers(locs, g);
    var a, b :| 0 <= a < |locs| && 0 <= b < |locs| && Emits(locs, g, a, b) && r == PairAt(locs, g, a, b);
    assert Emits(locs, g, b, a) && PairAt(locs, g, b, a) == DistancePair(r.id_end, r.id_start, r.distance);
  }

  /** Unrolling the closed matrix: mirrored pairs with non-negative distances. */
  lemma UnrollClosure(edges: seq<Edge>, locs: seq<int>, g: seq<seq<Dist>>, r: DistancePair)
    requires NonNegativeEdges(edges) && Square(g, |locs|)
    requires forall a, b :: 0 <= a < |locs| && 0 <= b < |locs| ==> g[a][b] == Closure(edges, locs, |locs|, a, b)
    requires r in Unroll(locs, g)
    ensures r.distance >= 0.0
    ensures DistancePair(r.id_end, r.id_start, r.distance) in Unroll(locs, g)
  {
    forall a, b | 0 <= a < |locs| && 0 <= b < |locs| ensures g[a][b] == g[b][a] {
      ClosureSymmetric(edges, locs, |locs|, a, b);
    }
    UnrollMirrored(locs, g, r);
    UnrollMembers(locs, g);
    var a, b :| 0 <= a < |locs| && 0 <= b < |locs| && Emits(locs, g, a, b) && r == PairAt(locs, g, a, b);
    ClosureNonNegative(edges, locs, |locs|, a, b);
  }
}
