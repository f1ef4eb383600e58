/** DistributeKeypointsRANMS in src/Distribution.cpp: the GRID strategy's bucketing, with every
    cell that holds more than its quota thinned by Soft-SSC inside the cell's own box. */
module Ranms {
  import opened KeyPoints
  import opened Suppression
  import opened BinarySearch
  import Grid

  /** The bracket of a Soft-SSC search as the source derives it from (rows, cols, N, size). */
  type Bracketing = (int, int, int, nat) -> Bracket

  /** The box of cell c: cellMinX = (c % nx) * pw, cellMinY = c / nx * ph, one patch wide and
      high. As a Soft-SSC frame (its maxX is never -1), the origin is the box's corner. */
  function CellFrame(g: Grid.Cells, c: int): Frame
    requires g.nx >= 1
  {
    Frame(g.pw, g.ph, (c % g.nx) * g.pw, (c / g.nx) * g.ph)
  }

  /** A point inside the nx * pw by ny * ph grid lies in the box of the cell it is filed under. */
  lemma InOwnCell(g: Grid.Cells, k: KeyPoint)
    requires g.nx >= 1 && g.ny >= 1 && g.pw >= 1 && g.ph >= 1
    requires 0 <= k.x < g.nx * g.pw && 0 <= k.y < g.ny * g.ph
    ensures InFrame(CellFrame(g, Grid.CellOf(g)(k)), k)
  {
    var col, row := k.x / g.pw, k.y / g.ph;
    Below(k.x, g.pw, g.nx);
    Below(k.y, g.ph, g.ny);
    CellIndex(g.nx, g.ny, row, col);
    var c := Grid.CellOf(g)(k);
    assert c == row * g.nx + col;
    Unique(c, g.nx, row, col);
  }

  /** Row-major indices of the cells of an nx by ny grid run over 0 .. nx * ny - 1. */
  lemma CellIndex(nx: int, ny: int, row: int, col: int)
    requires 0 <= row < ny && 0 <= col < nx
    ensures 0 <= row * nx + col < nx * ny
  {
    Coverage.MulLe(nx, 0, row);
    Coverage.MulLe(nx, row, ny - 1);
    assert nx * (ny - 1) == nx * ny - nx;
  }

  /** 0 <= a < n * p gives a / p < n. */
  lemma Below(a: int, p: int, n: int)
    requires p >= 1 && n >= 1 && 0 <= a < n * p
    ensures 0 <= a / p < n
    ensures p * (a / p) <= a < p * (a / p) + p
  {
    var q := a / p;
    assert a == p * q + a % p;
    if q >= n {
      Coverage.MulLe(p, n, q);
      assert false;
    }
    if q < 0 {
      Coverage.MulLe(p, q, -1);
      assert false;
    }
  }

  /** Euclidean division is unique: row * nx + col with 0 <= col < nx divides into row, col. */
  lemma Unique(idx: int, nx: int, row: int, col: int)
    requires nx >= 1 && 0 <= col < nx && row >= 0 && idx == row * nx + col
    ensures idx / nx == row && idx % nx == col
  {
    var q, r := idx / nx, idx % nx;
    assert idx == nx * q + r && 0 <= r < nx;
    if q > row {
      Coverage.MulLe(nx, row + 1, q);
      assert false;
    }
    if q < row {
      Coverage.MulLe(nx, q + 1, row);
      assert false;
    }
  }

  /** What RANMS leaves of cell c, holding the points cell, under quota q: the cell itself when
      the quota does not bite (the comparison nPerCell < size is unsigned, so a negative quota
      never bites), otherwise the points the Soft-SSC search keeps in the cell's box, with the
      bracket derived from (patch height, patch width, q, the cell's size). */
  ghost predicate Thinned(kept: seq<KeyPoint>, sel: seq<nat>, cell: seq<KeyPoint>, q: int,
                          g: Grid.Cells, c: int, bracketOf: Bracketing, threshold: int)
    requires g.nx >= 1
  {
    if 0 <= q < |cell| then
      && IsSelection(sel, |cell|) && kept == Gather(cell, sel)
      && sel == Selected(SoftSsc(CellFrame(g, c), threshold as real), cell, bracketOf(g.ph, g.pw, q, |cell|), -1)
    else kept == cell && sel == []
  }

  /** The body of the cell loop for one cell. */
  method ThinCell(cell: seq<KeyPoint>, g: Grid.Cells, c: int, q: int, bracketOf: Bracketing, threshold: int)
    returns (kept: seq<KeyPoint>, sel: seq<nat>)
    requires g.nx >= 1 && g.pw >= 1 && g.ph >= 1
    requires forall k :: k in cell ==> InFrame(CellFrame(g, c), k)
    requires forall rows, cols, n, size :: Usable(bracketOf(rows, cols, n, size))
    ensures Thinned(kept, sel, cell, q, g, c, bracketOf, threshold)
    ensures multiset(kept) <= multiset(cell)
  {
    var cellMinX := (c % g.nx) * g.pw;
    var cellMaxX := cellMinX + g.pw;
    var cellMinY := (c / g.nx) * g.ph;
    var cellMaxY := cellMinY + g.ph;
    if 0 <= q < |cell| {
      var b := bracketOf(cellMaxY - cellMinY, cellMaxX - cellMinX, q, |cell|);
      assert SoftFrame(cellMinX, cellMaxX, cellMinY, cellMaxY) == CellFrame(g, c);
      ghost var trials;
      kept, sel, trials := DistributeSoftSsc(cell, cellMinX, cellMaxX, cellMinY, cellMaxY, b, threshold as real);
    } else {
      kept, sel := cell, [];
    }
  }

  /** DistributeKeypointsRANMS on a region of width maxX - minX and height maxY - minY whose
      points have coordinates relative to its corner: the cells of the GRID strategy, each
      left whole or thinned by Soft-SSC, appended in cell order. The result holds only input
      points. */
  method DistributeRanms(kpts: seq<KeyPoint>, minX: int, maxX: int, minY: int, maxY: int, n: int,
                         gridSize: int, threshold: int, bracketOf: Bracketing)
    returns (r: seq<KeyPoint>, ghost kept: seq<seq<KeyPoint>>, ghost sels: seq<seq<nat>>)
    requires maxX - minX >= 1 && maxY - minY >= 1 && gridSize >= 1
    requires forall k :: k in kpts ==> 0 <= k.x < maxX - minX && 0 <= k.y < maxY - minY
    requires forall rows, cols, n, size :: Usable(bracketOf(rows, cols, n, size))
    ensures var g := Grid.Geometry(maxX - minX, maxY - minY, gridSize);
      var q := Grid.PerCell(n, g.nx * g.ny);
      && |kept| == |sels| == g.nx * g.ny && r == Concat(kept)
      && forall c :: 0 <= c < |kept| ==>
           Thinned(kept[c], sels[c], Bucket(kpts, Grid.CellOf(g), c), q, g, c, bracketOf, threshold)
    ensures multiset(r) <= multiset(kpts)
  {
    var g := Grid.Geometry(maxX - minX, maxY - minY, gridSize);
    var m := g.nx * g.ny;
    var q := Grid.PerCell(n, m);
    ghost var f := Grid.CellOf(g);
    var cells := Grid.FilePoints(kpts, g);
    ghost var filed := cells[..];
    assert Filed(kpts, g, filed);
    r, kept, sels := [], [], [];
    for c := 0 to m
      invariant |kept| == |sels| == c && r == Concat(kept)
      invariant Filed(kpts, g, filed) && |filed| == m
      invariant AllThinned(kept, sels, filed, q, g, bracketOf, threshold)
      invariant forall c' :: c <= c' < m ==> cells[c'] == filed[c']
    {
      var thinned, sel := ThinAt(cells, c, kpts, g, q, bracketOf, threshold, filed, kept, sels);
      r, kept, sels := r + thinned, kept + [thinned], sels + [sel];
    }
    AllCells(kpts, g, q, kept, sels, filed, bracketOf, threshold);
  }

  /** Once every cell is thinned, each cell of the result is its own bucket thinned, and the
      result holds only input points. */
  lemma AllCells(kpts: seq<KeyPoint>, g: Grid.Cells, q: int, kept: seq<seq<KeyPoint>>, sels: seq<seq<nat>>,
                 filed: seq<seq<KeyPoint>>, bracketOf: Bracketing, threshold: int)
    requires g.nx >= 1 && g.ny >= 1 && g.pw >= 1 && g.ph >= 1
    requires AllThinned(kept, sels, filed, q, g, bracketOf, threshold) && |kept| == |filed| == g.nx * g.ny
    requires Filed(kpts, g, filed)
    requires forall k :: k in kpts ==> k.x >= 0 && k.y >= 0
    ensures forall c :: 0 <= c < |kept| ==>
      Thinned(kept[c], sels[c], Bucket(kpts, Grid.CellOf(g), c), q, g, c, bracketOf, threshold)
    ensures multiset(Concat(kept)) <= multiset(kpts)
  {
    RanmsBound(kpts, g, kept, filed);
  }

  /** The loop body for cell c: the cell is thinned in place, which extends the thinned
      prefix. */
  method ThinAt(cells: array<seq<KeyPoint>>, c: nat, kpts: seq<KeyPoint>, g: Grid.Cells, q: int,
                bracketOf: Bracketing, threshold: int, ghost filed: seq<seq<KeyPoint>>,
                ghost kept: seq<seq<KeyPoint>>, ghost sels: seq<seq<nat>>)
    returns (thinned: seq<KeyPoint>, sel: seq<nat>)
    modifies cells
    requires g.nx >= 1 && g.ny >= 1 && g.pw >= 1 && g.ph >= 1
    requires forall k :: k in kpts ==> 0 <= k.x < g.nx * g.pw && 0 <= k.y < g.ny * g.ph
    requires forall rows, cols, n, size :: Usable(bracketOf(rows, cols, n, size))
    requires Filed(kpts, g, filed) && |filed| == cells.Length && c < cells.Length && cells[c] == filed[c]
    requires AllThinned(kept, sels, filed, q, g, bracketOf, threshold) && |kept| == c
    ensures cells[..] == old(cells[..])[c := thinned]
    ensures AllThinned(kept + [thinned], sels + [sel], filed, q, g, bracketOf, threshold)
  {
    CellInFrame(kpts, g, c);
    assert cells[c] == Bucket(kpts, Grid.CellOf(g), c);
    thinned, sel := ThinCell(cells[c], g, c, q, bracketOf, threshold);
    cells[c] := thinned;
    ThinnedSnoc(kept, sels, filed, q, g, bracketOf, threshold, thinned, sel);
  }

  /** filed[c] holds the points GRID files under cell c. */
  ghost predicate Filed(kpts: seq<KeyPoint>, g: Grid.Cells, filed: seq<seq<KeyPoint>>)
    requires g.nx >= 1 && g.ny >= 1 && g.pw >= 1 && g.ph >= 1
  {
    forall c :: 0 <= c < |filed| ==> filed[c] == Bucket(kpts, Grid.CellOf(g), c)
  }

  /** The cells before |kept| are each kept whole or thinned, holding only their own points. */
  ghost predicate AllThinned(kept: seq<seq<KeyPoint>>, sels: seq<seq<nat>>, filed: seq<seq<KeyPoint>>, q: int,
                             g: Grid.Cells, bracketOf: Bracketing, threshold: int)
    requires g.nx >= 1
  {
    && |kept| == |sels| <= |filed|
    && forall c :: 0 <= c < |kept| ==>
         Thinned(kept[c], sels[c], filed[c], q, g, c, bracketOf, threshold) && multiset(kept[c]) <= multiset(filed[c])
  }

  /** One more cell, thinned as it should be, extends the thinned prefix. */
  lemma ThinnedSnoc(kept: seq<seq<KeyPoint>>, sels: seq<seq<nat>>, filed: seq<seq<KeyPoint>>, q: int,
                    g: Grid.Cells, bracketOf: Bracketing, threshold: int, t: seq<KeyPoint>, s: seq<nat>)
    requires g.nx >= 1 && AllThinned(kept, sels, filed, q, g, bracketOf, threshold) && |kept| < |filed|
    requires Thinned(t, s, filed[|kept|], q, g, |kept|, bracketOf, threshold) && multiset(t) <= multiset(filed[|kept|])
    ensures AllThinned(kept + [t], sels + [s], filed, q, g, bracketOf, threshold)
  {
    var k, ss := kept + [t], sels + [s];
    forall c | 0 <= c < |k|
      ensures Thinned(k[c], ss[c], filed[c], q, g, c, bracketOf, threshold) && multiset(k[c]) <= multiset(filed[c])
    {
      if c < |kept| {
        assert k[c] == kept[c] && ss[c] == sels[c];
      }
    }
  }

  /** The points filed under cell c lie in the cell's box. */
  lemma CellInFrame(kpts: seq<KeyPoint>, g: Grid.Cells, c: int)
    requires g.nx >= 1 && g.ny >= 1 && g.pw >= 1 && g.ph >= 1
    requires forall k :: k in kpts ==> 0 <= k.x < g.nx * g.pw && 0 <= k.y < g.ny * g.ph
    ensures forall k :: k in Bucket(kpts, Grid.CellOf(g), c) ==> InFrame(CellFrame(g, c), k)
  {
    forall k | k in Bucket(kpts, Grid.CellOf(g), c) ensures InFrame(CellFrame(g, c), k) {
      BucketMembers(kpts, Grid.CellOf(g), c);
      InOwnCell(g, k);
    }
  }

  /** The appended cells hold only input points. */
  lemma RanmsBound(kpts: seq<KeyPoint>, g: Grid.Cells, kept: seq<seq<KeyPoint>>, filed: seq<seq<KeyPoint>>)
    requires g.nx >= 1 && g.ny >= 1 && g.pw >= 1 && g.ph >= 1
    requires |kept| == |filed| == g.nx * g.ny
    requires forall c :: 0 <= c < |filed| ==> filed[c] == Bucket(kpts, Grid.CellOf(g), c)
    requires forall c :: 0 <= c < |kept| ==> multiset(kept[c]) <= multiset(filed[c])
    requires forall k :: k in kpts ==> k.x >= 0 && k.y >= 0
    ensures multiset(Concat(kept)) <= multiset(kpts)
  {
    var f, m := Grid.CellOf(g), g.nx * g.ny;
    forall k | k in kpts ensures 0 <= f(k) < m {
      Grid.CellOfInRange(g, k);
    }
    ConcatUnion(kept);
    assert forall c :: 0 <= c < m ==> multiset(kept[c]) <= multiset(Buckets(kpts, f, m)[c]);
    UnionMono(kept, Buckets(kpts, f, m));
    UnionBuckets(kpts, f, m);
    BucketsPartition(kpts, f, m);
  }
}
