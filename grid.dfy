/** The GRID strategy, Distribution::DistributeKeypointsGrid in src/Distribution.cpp: the region
    is cut into roughly square cells and each cell keeps its own strongest N / nCells points. */
module Grid {
  import opened KeyPoints
  import Retention

  /** The bucketing grid: nx by ny cells of pw by ph pixels. */
  datatype Cells = Cells(nx: int, ny: int, pw: int, ph: int)

  function Min(a: int, b: int): int { if a <= b then a else b }

  /** ceil(a / b) for a >= 0, b >= 1. */
  function CeilDiv(a: int, b: int): (q: int)
    requires a >= 0 && b >= 1
    ensures b * (q - 1) < a <= b * q
    ensures a >= 1 ==> q >= 1
  {
    var q := (a + b - 1) / b;
    DivFloor(a + b - 1, b);
    assert b * q - b == b * (q - 1);
    q
  }

  lemma DivFloor(a: int, b: int)
    requires b >= 1
    ensures b * (a / b) <= a < b * (a / b) + b
    ensures a >= b ==> a / b >= 1
  {
  }

  /** width / cellSize with 1 <= cellSize <= width lies in [1, width]. */
  lemma PatchCount(width: int, cs: int)
    requires 1 <= cs <= width
    ensures 1 <= width / cs <= width
  {
    var q := width / cs;
    DivFloor(width, cs);
    assert q <= cs * q by { MulAtLeast(q, cs); }
  }

  lemma MulAtLeast(q: int, c: int)
    requires q >= 0 && c >= 1
    ensures q <= c * q
  {
    assert c * q == q + (c - 1) * q;
    assert (c - 1) * q >= 0;
  }

  /** The grid of a width x height region: the cell edge is the bucketing grid size clamped to
      the smaller side, npatchesInX = width / cellSize cells across, and patchWidth is the least
      edge with which those cells cover the width (likewise down). */
  function Geometry(width: int, height: int, gridSize: int): (g: Cells)
    requires width >= 1 && height >= 1 && gridSize >= 1
    ensures 1 <= g.nx <= width && 1 <= g.ny <= height
    ensures g.pw >= 1 && g.nx * (g.pw - 1) < width <= g.nx * g.pw
    ensures g.ph >= 1 && g.ny * (g.ph - 1) < height <= g.ny * g.ph
  {
    var cs := Min(gridSize, Min(width, height));
    PatchCount(width, cs);
    PatchCount(height, cs);
    var nx, ny := width / cs, height / cs;
    Cells(nx, ny, CeilDiv(width, nx), CeilDiv(height, ny))
  }

  /** The cell a point is filed under: row-major, with any index past the last cell clamped to
      the last cell. */
  function CellOf(g: Cells): KeyPoint -> int
    requires g.nx >= 1 && g.ny >= 1 && g.pw >= 1 && g.ph >= 1
  {
    (k: KeyPoint) =>
      var idx := (if k.y >= 0 then k.y / g.ph else 0) * g.nx + (if k.x >= 0 then k.x / g.pw else 0);
      if idx >= g.nx * g.ny then g.nx * g.ny - 1 else idx
  }

  /** A point with non-negative coordinates is filed under one of the nx * ny cells. */
  lemma CellOfInRange(g: Cells, k: KeyPoint)
    requires g.nx >= 1 && g.ny >= 1 && g.pw >= 1 && g.ph >= 1
    requires k.x >= 0 && k.y >= 0
    ensures 0 <= CellOf(g)(k) < g.nx * g.ny
  {
    var a := k.y / g.ph;
    assert a >= 0 && k.x / g.pw >= 0;
    assert a * g.nx >= 0;
  }

  /** (int)((float)N / nCells): the quota of each cell, truncated toward zero. */
  function PerCell(n: int, m: int): (q: int)
    requires m >= 1
    ensures n >= 0 ==> 0 <= q && m * q <= n
  {
    if n >= 0 then n / m else -((-n) / m)
  }

  /** The filing loop: cellkpts[idx].emplace_back(kpt) for every point in input order, so cell
      c holds, in input order, exactly the points whose index is c. */
  method FilePoints(kpts: seq<KeyPoint>, g: Cells) returns (cells: array<seq<KeyPoint>>)
    requires g.nx >= 1 && g.ny >= 1 && g.pw >= 1 && g.ph >= 1
    requires forall k :: k in kpts ==> k.x >= 0 && k.y >= 0
    ensures fresh(cells) && cells.Length == g.nx * g.ny
    ensures forall c :: 0 <= c < cells.Length ==> cells[c] == Bucket(kpts, CellOf(g), c)
  {
    var f := CellOf(g);
    cells := new seq<KeyPoint>[g.nx * g.ny](_ => []);
    for j := 0 to |kpts|
      invariant forall c :: 0 <= c < cells.Length ==> cells[c] == Bucket(kpts[..j], f, c)
    {
      var k := kpts[j];
      CellOfInRange(g, k);
      var idx := f(k);
      assert kpts[..j + 1][..j] == kpts[..j];
      cells[idx] := cells[idx] + [k];
    }
    assert kpts[..|kpts|] == kpts;
  }

  /** RetainBestN(cell, q) as a relation: kept is the whole cell when the quota does not bite
      (q >= |cell|, or q negative, which the unsigned comparison lets through), otherwise q
      points of the cell that respond at least as strongly as every dropped one. */
  ghost predicate BestOf(kept: seq<KeyPoint>, cell: seq<KeyPoint>, q: int) {
    && multiset(kept) <= multiset(cell)
    && |kept| == (if q < 0 || |cell| <= q then |cell| else q)
    && Dominates(kept, multiset(cell) - multiset(kept))
  }

  /** DistributeKeypointsGrid. Every cell keeps at most its quota of its own strongest points,
      so the result holds at most N points, all of them input points. */
  method DistributeGrid(kpts: seq<KeyPoint>, minX: int, maxX: int, minY: int, maxY: int, n: int, gridSize: int)
    returns (r: seq<KeyPoint>, ghost kept: seq<seq<KeyPoint>>)
    requires maxX - minX >= 1 && maxY - minY >= 1 && gridSize >= 1
    requires forall k :: k in kpts ==> k.x >= 0 && k.y >= 0
    ensures var g := Geometry(maxX - minX, maxY - minY, gridSize);
      var q := PerCell(n, g.nx * g.ny);
      && |kept| == g.nx * g.ny && r == Concat(kept)
      && forall c :: 0 <= c < |kept| ==> BestOf(kept[c], Bucket(kpts, CellOf(g), c), q)
    ensures n >= 0 ==> |r| <= n
    ensures multiset(r) <= multiset(kpts)
  {
    var g := Geometry(maxX - minX, maxY - minY, gridSize);
    var m := g.nx * g.ny;
    var q := PerCell(n, m);
    ghost var f := CellOf(g);
    var cells := FilePoints(kpts, g);
    r, kept := KeepBest(cells, q);
    GridBounds(kpts, g, q, n, kept);
  }

  /** The second loop of DistributeKeypointsGrid: RetainBestN on every cell in place, the
      survivors appended cell after cell. */
  method KeepBest(cells: array<seq<KeyPoint>>, q: int) returns (r: seq<KeyPoint>, ghost kept: seq<seq<KeyPoint>>)
    modifies cells
    ensures |kept| == cells.Length && r == Concat(kept) && kept == cells[..]
    ensures forall c :: 0 <= c < |kept| ==> BestOf(kept[c], old(cells[c]), q)
  {
    r, kept := [], [];
    for c := 0 to cells.Length
      invariant |kept| == c && r == Concat(kept) && kept == cells[..c]
      invariant forall c' :: 0 <= c' < c ==> BestOf(kept[c'], old(cells[c']), q)
      invariant forall c' :: c <= c' < cells.Length ==> cells[c'] == old(cells[c'])
    {
      var best := Retention.RetainBestN(cells[c], q);
      cells[c] := best;
      r, kept := r + best, kept + [best];
    }
  }

  /** The quota bound and the sub-multiset bound of the grid result. */
  lemma GridBounds(kpts: seq<KeyPoint>, g: Cells, q: int, n: int, kept: seq<seq<KeyPoint>>)
    requires g.nx >= 1 && g.ny >= 1 && g.pw >= 1 && g.ph >= 1
    requires forall k :: k in kpts ==> k.x >= 0 && k.y >= 0
    requires q == PerCell(n, g.nx * g.ny) && |kept| == g.nx * g.ny
    requires forall c :: 0 <= c < |kept| ==> BestOf(kept[c], Bucket(kpts, CellOf(g), c), q)
    ensures n >= 0 ==> |Concat(kept)| <= n
    ensures multiset(Concat(kept)) <= multiset(kpts)
  {
    var f, m := CellOf(g), g.nx * g.ny;
    ConcatUnion(kept);
    if n >= 0 { ConcatLength(kept, q); }
    assert forall c :: 0 <= c < |kept| ==> multiset(kept[c]) <= multiset(Buckets(kpts, f, m)[c]);
    assert forall c :: 0 <= c < |kept| ==> q >= 0 ==> |kept[c]| <= q;
    UnionMono(kept, Buckets(kpts, f, m));
    UnionBuckets(kpts, f, m);
    forall k | k in kpts ensures 0 <= f(k) < m {
      CellOfInRange(g, k);
    }
    BucketsPartition(kpts, f, m);
  }
}
