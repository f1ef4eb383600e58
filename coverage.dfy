/** The coverage grids of DistributeKeypointsSSC and DistributeKeypointsSoftSSC in
    src/Distribution.cpp: one trial files every point under a cell of edge width / 2 and lets a
    kept point cover the 5 x 5 cells around its own. The boolean grid and the max-response grid
    are proved to compute the greedy selections of the Cover and SoftCover rules. */
module Coverage {
  import opened KeyPoints
  import opened Suppression

  /** No kept point's window reaches cell (r, c). */
  ghost predicate Clear(kpts: seq<KeyPoint>, f: Frame, w: int, kept: seq<nat>, r: int, c: int)
    requires w >= 1
  {
    forall j :: 0 <= j < |kept| && kept[j] < |kpts| ==>
      !InWindow(CellRow(f, w, kpts[kept[j]]), CellCol(f, w, kpts[kept[j]]), 2, r, c)
  }

  /** The value of a Soft-SSC cell after the kept points: -1 while no kept window reaches it,
      otherwise the largest response among the kept points whose window does. */
  ghost function Coverage(kpts: seq<KeyPoint>, f: Frame, w: int, kept: seq<nat>, r: int, c: int): int
    requires w >= 1
  {
    if kept == [] then -1
    else
      var v := Coverage(kpts, f, w, kept[..|kept| - 1], r, c);
      var i := kept[|kept| - 1];
      if i < |kpts| && InWindow(CellRow(f, w, kpts[i]), CellCol(f, w, kpts[i]), 2, r, c) && v < kpts[i].response
      then kpts[i].response
      else v
  }

  /** A point in the frame has its cell in the (LastRow + 1) x (LastCol + 1) grid. */
  lemma CellInGrid(f: Frame, w: int, k: KeyPoint)
    requires w >= 1 && InFrame(f, k)
    ensures 0 <= CellRow(f, w, k) <= LastRow(f, w)
    ensures 0 <= CellCol(f, w, k) <= LastCol(f, w)
  {
    DivMono(2 * (k.y - f.oy), 2 * f.rows, w);
    DivMono(2 * (k.x - f.ox), 2 * f.cols, w);
  }

  lemma DivMono(a: int, b: int, w: int)
    requires 0 <= a <= b && w >= 1
    ensures 0 <= a / w <= b / w
  {
    var qa, qb := a / w, b / w;
    assert a == w * qa + a % w && 0 <= a % w < w;
    assert b == w * qb + b % w && 0 <= b % w < w;
    if qa < 0 {
      MulLe(w, qa, -1);
      assert false;
    }
    if qa > qb {
      MulLe(w, qb + 1, qa);
      assert false;
    }
  }

  lemma MulLe(w: int, x: int, y: int)
    requires w >= 0 && x <= y
    ensures w * x <= w * y
  {
    assert w * y - w * x == w * (y - x);
  }

  /** The window loops of both strategies: rows max(row - reach, 0) .. min(row + reach, last row),
      likewise for columns, every cell set to covered. Within the grid, exactly the window is
      added. */
  method MarkWindow(covered: array2<bool>, row: int, col: int, reach: nat)
    requires 0 <= row < covered.Length0 && 0 <= col < covered.Length1
    modifies covered
    ensures forall r, c :: 0 <= r < covered.Length0 && 0 <= c < covered.Length1 ==>
      covered[r, c] == (old(covered[r, c]) || InWindow(row, col, reach, r, c))
  {
    var rowMin := if row - reach >= 0 then row - reach else 0;
    var rowMax := if row + reach <= covered.Length0 - 1 then row + reach else covered.Length0 - 1;
    var colMin := if col - reach >= 0 then col - reach else 0;
    var colMax := if col + reach <= covered.Length1 - 1 then col + reach else covered.Length1 - 1;
    for dy := rowMin to rowMax + 1
      invariant forall r, c :: 0 <= r < covered.Length0 && 0 <= c < covered.Length1 ==>
        covered[r, c] == (old(covered[r, c]) || (rowMin <= r < dy && colMin <= c <= colMax))
    {
      for dx := colMin to colMax + 1
        invariant forall r, c :: 0 <= r < covered.Length0 && 0 <= c < covered.Length1 ==>
          covered[r, c] == (old(covered[r, c]) || (rowMin <= r < dy && colMin <= c <= colMax)
                            || (r == dy && colMin <= c < dx))
      {
        if !covered[dy, dx] {
          covered[dy, dx] := true;
        }
      }
    }
  }

  /** The Soft-SSC window loops: every cell of the clamped window below the score is raised
      to it; the rest of the grid is untouched. */
  method RaiseWindow(covered: array2<int>, row: int, col: int, reach: nat, score: int)
    requires 0 <= row < covered.Length0 && 0 <= col < covered.Length1
    modifies covered
    ensures forall r, c :: 0 <= r < covered.Length0 && 0 <= c < covered.Length1 ==>
      covered[r, c] == if InWindow(row, col, reach, r, c) && old(covered[r, c]) < score then score
                       else old(covered[r, c])
  {
    var rowMin := if row - reach >= 0 then row - reach else 0;
    var rowMax := if row + reach <= covered.Length0 - 1 then row + reach else covered.Length0 - 1;
    var colMin := if col - reach >= 0 then col - reach else 0;
    var colMax := if col + reach <= covered.Length1 - 1 then col + reach else covered.Length1 - 1;
    for dy := rowMin to rowMax + 1
      invariant forall r, c :: 0 <= r < covered.Length0 && 0 <= c < covered.Length1 ==>
        covered[r, c] == if rowMin <= r < dy && colMin <= c <= colMax && old(covered[r, c]) < score
                         then score else old(covered[r, c])
    {
      for dx := colMin to colMax + 1
        invariant forall r, c :: 0 <= r < covered.Length0 && 0 <= c < covered.Length1 ==>
          covered[r, c] == if ((rowMin <= r < dy && colMin <= c <= colMax) || (r == dy && colMin <= c < dx))
                              && old(covered[r, c]) < score
                           then score else old(covered[r, c])
      {
        if covered[dy, dx] < score {
          covered[dy, dx] := score;
        }
      }
    }
  }

  /** Under the Cover rule a candidate is accepted exactly when its own cell is clear. */
  lemma AcceptsWhenClear(kpts: seq<KeyPoint>, f: Frame, w: int, kept: seq<nat>, i: nat)
    requires w >= 1 && i < |kpts|
    ensures Accepts(kpts, Near(Cover(f, w)), Admit(Cover(f, w)), kept, i) <==>
      Clear(kpts, f, w, kept, CellRow(f, w, kpts[i]), CellCol(f, w, kpts[i]))
  {
  }

  /** Keeping point i clears no cell and covers exactly its window. */
  lemma ClearSnoc(kpts: seq<KeyPoint>, f: Frame, w: int, kept: seq<nat>, i: nat, r: int, c: int)
    requires w >= 1 && i < |kpts|
    ensures Clear(kpts, f, w, kept + [i], r, c) <==>
      Clear(kpts, f, w, kept, r, c) && !InWindow(CellRow(f, w, kpts[i]), CellCol(f, w, kpts[i]), 2, r, c)
  {
    var k := kept + [i];
    assert forall q :: 0 <= q < |kept| ==> k[q] == kept[q];
    assert k[|kept|] == i;
  }

  /** The SSC trial: a point is kept when its cell is not yet covered, and then covers its
      window. It computes the greedy selection of the Cover rule. */
  method SelectByCoverage(kpts: seq<KeyPoint>, f: Frame, w: int) returns (res: seq<nat>)
    requires w >= 1 && f.cols >= 0 && f.rows >= 0
    requires forall k :: k in kpts ==> InFrame(f, k)
    ensures res == Trial(kpts, Cover(f, w), |kpts|)
  {
    ghost var near, admits := Near(Cover(f, w)), Admit(Cover(f, w));
    var lastRow, lastCol := LastRow(f, w), LastCol(f, w);
    DivMono(0, 2 * f.rows, w);
    DivMono(0, 2 * f.cols, w);
    var covered := new bool[lastRow + 1, lastCol + 1]((_, _) => false);
    res := [];
    for i := 0 to |kpts|
      invariant res == Kept(kpts, near, admits, i)
      invariant forall r, c :: 0 <= r <= lastRow && 0 <= c <= lastCol ==>
        (covered[r, c] <==> !Clear(kpts, f, w, res, r, c))
    {
      var row, col := CellRow(f, w, kpts[i]), CellCol(f, w, kpts[i]);
      CellInGrid(f, w, kpts[i]);
      AcceptsWhenClear(kpts, f, w, res, i);
      if !covered[row, col] {
        forall r, c | 0 <= r <= lastRow && 0 <= c <= lastCol
          ensures Clear(kpts, f, w, res + [i], r, c) <==>
            Clear(kpts, f, w, res, r, c) && !InWindow(row, col, 2, r, c)
        {
          ClearSnoc(kpts, f, w, res, i, r, c);
        }
        res := res + [i];
        MarkWindow(covered, row, col, 2);
      }
    }
  }

  /** A cell's Soft-SSC value lies below score + t exactly when the cell was never reached
      (its -1 lies below) or every kept point reaching it responds below score + t. */
  lemma {:induction false} CoverageBelow(kpts: seq<KeyPoint>, f: Frame, w: int, kept: seq<nat>,
                                         r: int, c: int, s: real)
    requires w >= 1
    ensures (Coverage(kpts, f, w, kept, r, c) as real < s) <==>
      (-1.0 < s && forall j :: 0 <= j < |kept| && kept[j] < |kpts| ==>
        InWindow(CellRow(f, w, kpts[kept[j]]), CellCol(f, w, kpts[kept[j]]), 2, r, c) ==>
          kpts[kept[j]].response as real < s)
    decreases |kept|
  {
    if kept != [] {
      var pre := kept[..|kept| - 1];
      CoverageBelow(kpts, f, w, pre, r, c, s);
      assert forall q :: 0 <= q < |pre| ==> kept[q] == pre[q];
    }
  }

  /** Under the SoftCover rule a candidate is accepted exactly when its cell's value lies below
      its response plus the threshold. */
  lemma AcceptsWhenBelow(kpts: seq<KeyPoint>, f: Frame, w: int, t: real, kept: seq<nat>, i: nat)
    requires w >= 1 && i < |kpts|
    ensures Accepts(kpts, Near(SoftCover(f, w, t)), Admit(SoftCover(f, w, t)), kept, i) <==>
      Coverage(kpts, f, w, kept, CellRow(f, w, kpts[i]), CellCol(f, w, kpts[i])) as real
        < kpts[i].response as real + t
  {
    CoverageBelow(kpts, f, w, kept, CellRow(f, w, kpts[i]), CellCol(f, w, kpts[i]), kpts[i].response as real + t);
  }

  /** Keeping point i raises the cells of its window that lie below its response. */
  lemma CoverageSnoc(kpts: seq<KeyPoint>, f: Frame, w: int, kept: seq<nat>, i: nat, r: int, c: int)
    requires w >= 1 && i < |kpts|
    ensures Coverage(kpts, f, w, kept + [i], r, c) ==
      var v := Coverage(kpts, f, w, kept, r, c);
      if InWindow(CellRow(f, w, kpts[i]), CellCol(f, w, kpts[i]), 2, r, c) && v < kpts[i].response
      then kpts[i].response else v
  {
    assert (kept + [i])[..|kept|] == kept;
  }

  /** The Soft-SSC trial: a point is kept when its cell's value lies below its response plus
      the threshold, and then raises its window to its response. It computes the greedy
      selection of the SoftCover rule. */
  method SelectBySoftCoverage(kpts: seq<KeyPoint>, f: Frame, w: int, t: real) returns (res: seq<nat>)
    requires w >= 1 && f.cols >= 0 && f.rows >= 0
    requires forall k :: k in kpts ==> InFrame(f, k)
    ensures res == Trial(kpts, SoftCover(f, w, t), |kpts|)
  {
    ghost var near, admits := Near(SoftCover(f, w, t)), Admit(SoftCover(f, w, t));
    var lastRow, lastCol := LastRow(f, w), LastCol(f, w);
    DivMono(0, 2 * f.rows, w);
    DivMono(0, 2 * f.cols, w);
    var covered := new int[lastRow + 1, lastCol + 1]((_, _) => -1);
    res := [];
    for i := 0 to |kpts|
      invariant res == Kept(kpts, near, admits, i)
      invariant forall r, c :: 0 <= r <= lastRow && 0 <= c <= lastCol ==>
        covered[r, c] == Coverage(kpts, f, w, res, r, c)
    {
      var row, col := CellRow(f, w, kpts[i]), CellCol(f, w, kpts[i]);
      CellInGrid(f, w, kpts[i]);
      var score := kpts[i].response;
      AcceptsWhenBelow(kpts, f, w, t, res, i);
      if (covered[row, col] as real) < (score as real) + t {
        forall r, c | 0 <= r <= lastRow && 0 <= c <= lastCol
          ensures Coverage(kpts, f, w, res + [i], r, c) ==
            var v := Coverage(kpts, f, w, res, r, c);
            if InWindow(row, col, 2, r, c) && v < score then score else v
        {
          CoverageSnoc(kpts, f, w, res, i, r, c);
        }
        res := res + [i];
        RaiseWindow(covered, row, col, 2, score);
      }
    }
  }
}
