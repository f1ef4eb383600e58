/** DistributeKeypointsVSSC in src/Distribution.cpp: suppression over a grid of one-pixel cells
    whose window shrinks with the point's score, repeated with a smaller window parameter w until
    enough points survive. A pass indexes the flat covered grid with a row stride; the source's
    stride is cols, which aliases cells of neighbouring rows, and the model runs the stride
    cols + 1 that the grid's (rows + 1) * (cols + 1) cells call for. */
module Vssc {
  import opened KeyPoints
  import BinarySearch
  import Coverage

  /** The fixed inputs of one pass: the frame (cols = maxX - minX, rows = maxY - minY), the row
      stride of the flat covered grid, the window parameter w, the threshold and N. */
  datatype Setting = Setting(cols: int, rows: int, stride: int, w: int, t: real, n: int)

  /** A frame with cells in it and a stride no wider than a row of the grid. */
  predicate Fits(st: Setting) {
    st.cols >= 0 && st.rows >= 0 && 0 <= st.stride <= st.cols + 1
  }

  /** nCells = (cellRows + 1) * (cellCols + 1): with c = 1 there is a cell per pixel, border included. */
  function CellCount(st: Setting): (m: nat)
    requires Fits(st)
    ensures m >= st.rows * st.stride + st.cols + 1
  {
    Coverage.MulLe(st.rows, st.stride, st.cols + 1);
    Coverage.MulLe(st.cols + 1, 0, st.rows + 1);
    (st.rows + 1) * (st.cols + 1)
  }

  /** dy * stride + dx: where the flat grid keeps cell (dy, dx). */
  function Index(st: Setting, row: int, col: int): int {
    row * st.stride + col
  }

  /** The source's stride, cellCols, one short of a row of the grid. */
  function AsWritten(cols: int, rows: int, w: int, t: real, n: int): Setting {
    Setting(cols, rows, cols, w, t, n)
  }

  /** The stride the grid's shape calls for, cellCols + 1. */
  function Corrected(cols: int, rows: int, w: int, t: real, n: int): Setting {
    Setting(cols, rows, cols + 1, w, t, n)
  }

  /** Every cell of the grid has a place in the flat vector. */
  lemma IndexInBounds(st: Setting, row: int, col: int)
    requires Fits(st) && 0 <= row <= st.rows && 0 <= col <= st.cols
    ensures 0 <= Index(st, row, col) < CellCount(st)
  {
    Coverage.MulLe(st.stride, 0, row);
    Coverage.MulLe(st.stride, row, st.rows);
  }

  /** With the source's stride, the last cell of a row and the first cell of the next share a
      place: in a frame two pixels wide, (0, 2) and (1, 0) are both kept at index 2. */
  lemma AsWrittenAliases()
    ensures var st := AsWritten(2, 2, 6, 0.0, 1);
      Index(st, 0, 2) == Index(st, 1, 0) == 2 && Fits(st)
  {
  }

  /** With the corrected stride no two cells of the grid share a place. */
  lemma CorrectedInjective(st: Setting, row: int, col: int, row': int, col': int)
    requires st.stride == st.cols + 1 && 0 <= col <= st.cols && 0 <= col' <= st.cols
    requires Index(st, row, col) == Index(st, row', col')
    ensures row == row' && col == col'
  {
    if row < row' {
      Coverage.MulLe(st.stride, row + 1, row');
      assert false;
    } else if row' < row {
      Coverage.MulLe(st.stride, row' + 1, row);
      assert false;
    }
  }

  /** (int) of a float: truncation toward zero. */
  function Trunc(x: real): (r: int)
    ensures x >= 0.0 ==> r as real <= x < r as real + 1.0
    ensures x < 0.0 ==> r as real - 1.0 < x <= r as real
  {
    if x >= 0.0 then x.Floor else -((-x).Floor)
  }

  /** The window half-width of a point of score s: w/2 + (w/2) * (1 - (s - 7) / 248) + 1,
      truncated, with w/2 an integer division. Stronger points get narrower windows. */
  function Width(w: int, score: int): int {
    var h := BinarySearch.Half(w) as real;
    Trunc(h + h * (1.0 - (score as real - 7.0) / 248.0) + 1.0)
  }

  /** Scores in the range of the formula's constants make every window empty once w <= -4. */
  lemma WidthNegative(w: int, score: int)
    requires w <= -4 && 0 <= score <= 255
    ensures Width(w, score) < 0
  {
    var h := BinarySearch.Half(w) as real;
    var f := 1.0 - (score as real - 7.0) / 248.0;
    assert h <= -2.0;
    assert f >= 0.0;
    NonPositiveProduct(h, f);
    var x := h + h * f + 1.0;
    assert x <= -1.0;
    assert Width(w, score) == Trunc(x);
    TruncNegative(x);
  }

  lemma TruncNegative(x: real)
    requires x <= -1.0
    ensures Trunc(x) < 0
  {
  }

  lemma NonPositiveProduct(a: real, b: real)
    requires a <= 0.0 && b >= 0.0
    ensures a * b <= 0.0
  {
  }

  /** The clamped ends of a window: row - width floored at 0 and row + width capped at the top. */
  function Lo(v: int, width: int): (r: int)
    ensures r >= 0
  {
    if v - width >= 0 then v - width else 0
  }

  function Hi(v: int, width: int, top: int): (r: int)
    ensures r <= top
  {
    if v + width <= top then v + width else top
  }

  /** The cells dx = c0 .. c1 of row dy, left to right. */
  function Row(st: Setting, dy: int, c0: int, c1: int): seq<int> {
    seq(if c0 <= c1 then c1 - c0 + 1 else 0, j => Index(st, dy, c0 + j))
  }

  /** The cells of rows r0 .. r1, row by row: the order of the source's two nested loops. */
  function Block(st: Setting, r0: int, r1: int, c0: int, c1: int): seq<int>
    decreases if r0 <= r1 then r1 - r0 + 1 else 0
  {
    if r1 < r0 then [] else Block(st, r0, r1 - 1, c0, c1) + Row(st, r1, c0, c1)
  }

  /** The window of point k at window parameter w. */
  function Window(st: Setting, k: KeyPoint): seq<int> {
    var width := Width(st.w, k.response);
    Block(st, Lo(k.y, width), Hi(k.y, width, st.rows), Lo(k.x, width), Hi(k.x, width, st.cols))
  }

  /** A point the pass can index: on the frame, border included. */
  predicate InGrid(st: Setting, k: KeyPoint) {
    0 <= k.x <= st.cols && 0 <= k.y <= st.rows
  }

  predicate Within(cells: seq<int>, size: int) {
    forall i :: 0 <= i < |cells| ==> 0 <= cells[i] < size
  }

  lemma RowWithin(st: Setting, dy: int, c0: int, c1: int)
    requires Fits(st) && 0 <= dy <= st.rows && 0 <= c0 && (c0 <= c1 ==> c1 <= st.cols)
    ensures Within(Row(st, dy, c0, c1), CellCount(st))
  {
    forall i | 0 <= i < |Row(st, dy, c0, c1)| ensures 0 <= Row(st, dy, c0, c1)[i] < CellCount(st) {
      IndexInBounds(st, dy, c0 + i);
    }
  }

  /** Windows stay on the grid: the clamping keeps every visited cell in the vector. */
  lemma {:induction false} BlockWithin(st: Setting, r0: int, r1: int, c0: int, c1: int)
    requires Fits(st) && 0 <= r0 && r1 <= st.rows && 0 <= c0 && c1 <= st.cols
    ensures Within(Block(st, r0, r1, c0, c1), CellCount(st))
    decreases if r0 <= r1 then r1 - r0 + 1 else 0
  {
    if r0 <= r1 {
      BlockWithin(st, r0, r1 - 1, c0, c1);
      RowWithin(st, r1, c0, c1);
    }
  }

  /** What marking a window leaves: the covered grid, and whether every visited cell was below
      the score when visited. */
  datatype Marked = Marked(covered: seq<int>, best: bool)

  /** The inner loops on cells, in order, from state m: a cell below the score is raised to it,
      any other cell makes the point not best. */
  function Visit(m: Marked, cells: seq<int>, score: int): (r: Marked)
    requires Within(cells, |m.covered|)
    ensures |r.covered| == |m.covered|
    decreases |cells|
  {
    if cells == [] then m
    else
      var p := Visit(m, cells[..|cells| - 1], score);
      var c := cells[|cells| - 1];
      if score > p.covered[c] then Marked(p.covered[c := score], p.best) else Marked(p.covered, false)
  }

  /** Marking a window from the empty-handed state: nothing visited yet, best so far. */
  function Fresh(cov: seq<int>): Marked {
    Marked(cov, true)
  }

  lemma VisitSnoc(m: Marked, cells: seq<int>, c: int, score: int)
    requires Within(cells + [c], |m.covered|)
    ensures Within(cells, |m.covered|)
    ensures var p := Visit(m, cells, score);
      Visit(m, cells + [c], score) ==
        if score > p.covered[c] then Marked(p.covered[c := score], p.best) else Marked(p.covered, false)
  {
    assert forall i :: 0 <= i < |cells| ==> cells[i] == (cells + [c])[i];
    assert (cells + [c])[..|cells|] == cells;
  }

  /** Marking a + b is marking a, then b from where a left off. */
  lemma {:induction false} VisitAppend(m: Marked, a: seq<int>, b: seq<int>, score: int)
    requires Within(a, |m.covered|) && Within(b, |m.covered|)
    ensures Within(a + b, |m.covered|)
    ensures Visit(m, a + b, score) == Visit(Visit(m, a, score), b, score)
    decreases |b|
  {
    if b == [] {
      assert a + b == a;
    } else {
      var b', c := b[..|b| - 1], b[|b| - 1];
      assert b == b' + [c];
      assert a + b == (a + b') + [c];
      VisitAppend(m, a, b', score);
      VisitSnoc(m, a + b', c, score);
      VisitSnoc(Visit(m, a, score), b', c, score);
    }
  }

  /** The state of a pass: the covered grid and the indices kept so far. */
  datatype Sweep = Sweep(covered: seq<int>, kept: seq<nat>)

  /** One point: if its own cell is at most score + threshold, mark its window, and keep the
      point when every cell of the window was below its score. */
  function StepPoint(st: Setting, sw: Sweep, k: KeyPoint, i: nat): Sweep
    requires Fits(st) && InGrid(st, k) && |sw.covered| == CellCount(st)
  {
    IndexInBounds(st, k.y, k.x);
    var width := Width(st.w, k.response);
    BlockWithin(st, Lo(k.y, width), Hi(k.y, width, st.rows), Lo(k.x, width), Hi(k.x, width, st.cols));
    if sw.covered[Index(st, k.y, k.x)] as real <= k.response as real + st.t then
      var m := Visit(Fresh(sw.covered), Window(st, k), k.response);
      Sweep(m.covered, if m.best then sw.kept + [i] else sw.kept)
    else sw
  }

  predicate AllInGrid(st: Setting, kpts: seq<KeyPoint>) {
    forall k :: k in kpts ==> InGrid(st, k)
  }

  /** The pass over the first i points, from a grid of -1s; once more than N points are kept the
      pass has stopped and later points change nothing. */
  function Scan(kpts: seq<KeyPoint>, st: Setting, i: nat): (sw: Sweep)
    requires Fits(st) && AllInGrid(st, kpts) && i <= |kpts|
    ensures |sw.covered| == CellCount(st)
  {
    if i == 0 then Sweep(seq(CellCount(st), _ => -1), [])
    else
      var prev := Scan(kpts, st, i - 1);
      assert kpts[i - 1] in kpts;
      if |prev.kept| > st.n then prev else StepPoint(st, prev, kpts[i - 1], i - 1)
  }

  /** A pass keeps a subsequence of the points, and no more than N + 1 of them. */
  lemma {:induction false} ScanSelection(kpts: seq<KeyPoint>, st: Setting, i: nat)
    requires Fits(st) && AllInGrid(st, kpts) && i <= |kpts| && st.n >= 0
    ensures IsSelection(Scan(kpts, st, i).kept, i) && |Scan(kpts, st, i).kept| <= st.n + 1
  {
    if i > 0 {
      ScanSelection(kpts, st, i - 1);
    }
  }

  /** Points after the (N + 1)-th kept one change nothing: the break. */
  lemma {:induction false} ScanStable(kpts: seq<KeyPoint>, st: Setting, i: nat, j: nat)
    requires Fits(st) && AllInGrid(st, kpts) && i <= j <= |kpts|
    requires |Scan(kpts, st, i).kept| > st.n
    ensures Scan(kpts, st, j) == Scan(kpts, st, i)
    decreases j
  {
    if j > i {
      ScanStable(kpts, st, i, j - 1);
    }
  }

  /** A kept point stays kept: the kept indices of a shorter pass start those of a longer one. */
  lemma {:induction false} ScanGrows(kpts: seq<KeyPoint>, st: Setting, i: nat, j: nat)
    requires Fits(st) && AllInGrid(st, kpts) && i <= j <= |kpts|
    ensures Scan(kpts, st, i).kept <= Scan(kpts, st, j).kept
    decreases j
  {
    if j > i {
      ScanGrows(kpts, st, i, j - 1);
    }
  }

  lemma RowSnoc(st: Setting, dy: int, c0: int, dx: int)
    requires c0 <= dx
    ensures Row(st, dy, c0, dx) == Row(st, dy, c0, dx - 1) + [Index(st, dy, dx)]
  {
  }

  /** Visiting one more cell of a row: the cell is in the grid and takes its turn last. */
  lemma RowStep(st: Setting, dy: int, c0: int, dx: int, m0: Marked, score: int)
    requires Fits(st) && |m0.covered| == CellCount(st)
    requires 0 <= dy <= st.rows && 0 <= c0 <= dx <= st.cols
    ensures 0 <= Index(st, dy, dx) < |m0.covered|
    ensures Within(Row(st, dy, c0, dx - 1), |m0.covered|) && Within(Row(st, dy, c0, dx), |m0.covered|)
    ensures var p := Visit(m0, Row(st, dy, c0, dx - 1), score); var c := Index(st, dy, dx);
      Visit(m0, Row(st, dy, c0, dx), score) ==
        if score > p.covered[c] then Marked(p.covered[c := score], p.best) else Marked(p.covered, false)
  {
    IndexInBounds(st, dy, dx);
    RowSnoc(st, dy, c0, dx);
    RowWithin(st, dy, c0, dx);
    VisitSnoc(m0, Row(st, dy, c0, dx - 1), Index(st, dy, dx), score);
  }

  /** The inner loop: cells dx = c0 .. c1 of row dy, on the covered array in place. */
  method MarkRow(covered: array<int>, st: Setting, dy: int, c0: int, c1: int, score: int, best0: bool)
    returns (best: bool)
    requires Fits(st) && covered.Length == CellCount(st)
    requires 0 <= dy <= st.rows && 0 <= c0 && c1 <= st.cols
    modifies covered
    ensures Within(Row(st, dy, c0, c1), covered.Length)
    ensures Marked(covered[..], best) == Visit(Marked(old(covered[..]), best0), Row(st, dy, c0, c1), score)
  {
    ghost var m0 := Marked(covered[..], best0);
    best := best0;
    var dx := c0;
    RowWithin(st, dy, c0, dx - 1);
    while dx <= c1
      invariant c0 <= dx && (dx <= c1 + 1 || dx == c0)
      invariant Within(Row(st, dy, c0, dx - 1), covered.Length)
      invariant Marked(covered[..], best) == Visit(m0, Row(st, dy, c0, dx - 1), score)
      decreases c1 - dx
    {
      RowStep(st, dy, c0, dx, m0, score);
      best := MarkCell(covered, Index(st, dy, dx), score, best);
      dx := dx + 1;
    }
    assert Row(st, dy, c0, dx - 1) == Row(st, dy, c0, c1);
  }

  /** One cell of the inner loop: a stronger score takes the cell, otherwise the point is not
      the best of its window. */
  method MarkCell(covered: array<int>, idx: int, score: int, best0: bool) returns (best: bool)
    requires 0 <= idx < covered.Length
    modifies covered
    ensures Marked(covered[..], best) ==
      if score > old(covered[idx]) then Marked(old(covered[..])[idx := score], best0)
      else Marked(old(covered[..]), false)
  {
    best := best0;
    if score > covered[idx] {
      covered[idx] := score;
    } else {
      best := false;
    }
  }

  /** The two nested loops over the window's rows and columns. */
  method Mark(covered: array<int>, st: Setting, r0: int, r1: int, c0: int, c1: int, score: int)
    returns (best: bool)
    requires Fits(st) && covered.Length == CellCount(st)
    requires 0 <= r0 && r1 <= st.rows && 0 <= c0 && c1 <= st.cols
    modifies covered
    ensures Within(Block(st, r0, r1, c0, c1), covered.Length)
    ensures Marked(covered[..], best) == Visit(Fresh(old(covered[..])), Block(st, r0, r1, c0, c1), score)
  {
    ghost var m0 := Fresh(covered[..]);
    best := true;
    var dy := r0;
    while dy <= r1
      invariant r0 <= dy && (dy <= r1 + 1 || dy == r0)
      invariant Within(Block(st, r0, dy - 1, c0, c1), covered.Length)
      invariant Marked(covered[..], best) == Visit(m0, Block(st, r0, dy - 1, c0, c1), score)
      decreases r1 - dy
    {
      best := MarkRow(covered, st, dy, c0, c1, score, best);
      VisitAppend(m0, Block(st, r0, dy - 1, c0, c1), Row(st, dy, c0, c1), score);
      dy := dy + 1;
    }
    BlockWithin(st, r0, r1, c0, c1);
    assert Block(st, r0, dy - 1, c0, c1) == Block(st, r0, r1, c0, c1);
  }

  /** One pass of the outer loop: every point in score order against the covered grid, stopping
      once more than N points are kept. */
  method Pass(kpts: seq<KeyPoint>, st: Setting) returns (res: seq<nat>)
    requires Fits(st) && AllInGrid(st, kpts) && st.n >= 0
    ensures res == Scan(kpts, st, |kpts|).kept
  {
    var covered := new int[CellCount(st)](_ => -1);
    res := [];
    var i := 0;
    while i < |kpts| && |res| <= st.n
      invariant 0 <= i <= |kpts|
      invariant Sweep(covered[..], res) == Scan(kpts, st, i)
      invariant covered.Length == CellCount(st)
    {
      assert kpts[i] in kpts;
      res := Consider(covered, st, kpts[i], i, res);
      i := i + 1;
    }
    if i < |kpts| {
      ScanStable(kpts, st, i, |kpts|);
    }
  }

  /** The body of the pass for point i: the test on its own cell, the marking of its window and
      the push when it is the best of the window. */
  method Consider(covered: array<int>, st: Setting, k: KeyPoint, i: nat, res0: seq<nat>)
    returns (res: seq<nat>)
    requires Fits(st) && InGrid(st, k) && covered.Length == CellCount(st)
    modifies covered
    ensures Sweep(covered[..], res) == StepPoint(st, Sweep(old(covered[..]), res0), k, i)
  {
    res := res0;
    IndexInBounds(st, k.y, k.x);
    var idx := k.y * st.stride + k.x;
    if covered[idx] as real <= k.response as real + st.t {
      var width := Width(st.w, k.response);
      var best := Mark(covered, st, Lo(k.y, width), Hi(k.y, width, st.rows), Lo(k.x, width), Hi(k.x, width, st.cols), k.response);
      if best {
        res := res + [i];
      }
    }
  }

  /** Strictly increasing cells: no cell visited twice. */
  predicate Increasing(cells: seq<int>) {
    forall i, j :: 0 <= i < j < |cells| ==> cells[i] < cells[j]
  }

  /** The cells of a row, left to right, lie in [dy * stride, dy * stride + stride) when the
      columns fit in the stride. */
  lemma RowSpan(st: Setting, dy: int, c0: int, c1: int)
    requires 0 <= c0 && c1 < st.stride
    ensures Increasing(Row(st, dy, c0, c1))
    ensures forall i :: 0 <= i < |Row(st, dy, c0, c1)| ==>
      dy * st.stride <= Row(st, dy, c0, c1)[i] < dy * st.stride + st.stride
  {
    var row := Row(st, dy, c0, c1);
    assert forall i :: 0 <= i < |row| ==> row[i] == Index(st, dy, c0 + i);
  }

  /** Two increasing runs, the first wholly below the second, make one increasing run. */
  lemma IncreasingAppend(a: seq<int>, b: seq<int>, bound: int)
    requires Increasing(a) && Increasing(b)
    requires forall i :: 0 <= i < |a| ==> a[i] < bound
    requires forall i :: 0 <= i < |b| ==> bound <= b[i]
    ensures Increasing(a + b)
  {
    var ab := a + b;
    forall i, j | 0 <= i < j < |ab| ensures ab[i] < ab[j] {
      if j < |a| {
        assert ab[i] == a[i] && ab[j] == a[j];
      } else if i >= |a| {
        assert ab[i] == b[i - |a|] && ab[j] == b[j - |a|];
      } else {
        assert ab[i] == a[i] && ab[j] == b[j - |a|];
      }
    }
  }

  /** With the corrected stride a window lists its cells in increasing order, every one of them
      below the start of the row after its last. */
  lemma {:induction false} CorrectedBlockIncreasing(st: Setting, r0: int, r1: int, c0: int, c1: int)
    requires Fits(st) && st.stride == st.cols + 1 && 0 <= c0 && c1 <= st.cols
    ensures Increasing(Block(st, r0, r1, c0, c1))
    ensures forall i :: 0 <= i < |Block(st, r0, r1, c0, c1)| ==> Block(st, r0, r1, c0, c1)[i] < (r1 + 1) * st.stride
    decreases if r0 <= r1 then r1 - r0 + 1 else 0
  {
    if r0 <= r1 {
      CorrectedBlockIncreasing(st, r0, r1 - 1, c0, c1);
      var above, row := Block(st, r0, r1 - 1, c0, c1), Row(st, r1, c0, c1);
      RowSpan(st, r1, c0, c1);
      assert r1 * st.stride + st.stride == (r1 + 1) * st.stride;
      assert (r1 - 1 + 1) * st.stride == r1 * st.stride;
      IncreasingAppend(above, row, r1 * st.stride);
      var b := above + row;
      assert b == Block(st, r0, r1, c0, c1);
      forall i | 0 <= i < |b| ensures b[i] < (r1 + 1) * st.stride {
        if i < |above| {
          assert b[i] == above[i];
          assert above[i] < r1 * st.stride;
        } else {
          assert b[i] == row[i - |above|];
          assert row[i - |above|] < r1 * st.stride + st.stride;
        }
      }
    }
  }

  /** Cells a window does not visit keep their value. */
  lemma {:induction false} VisitElsewhere(m: Marked, cells: seq<int>, score: int, c: int)
    requires Within(cells, |m.covered|) && 0 <= c < |m.covered|
    requires forall i :: 0 <= i < |cells| ==> cells[i] != c
    ensures Visit(m, cells, score).covered[c] == m.covered[c]
    decreases |cells|
  {
    if cells != [] {
      VisitElsewhere(m, cells[..|cells| - 1], score, c);
    }
  }

  /** A window that visits each cell once, over cells all below the score, leaves the point best. */
  lemma {:induction false} VisitFresh(cov: seq<int>, cells: seq<int>, score: int)
    requires Within(cells, |cov|) && Increasing(cells)
    requires forall i :: 0 <= i < |cells| ==> cov[cells[i]] < score
    ensures Visit(Fresh(cov), cells, score).best
    decreases |cells|
  {
    if cells != [] {
      var front := cells[..|cells| - 1];
      VisitFresh(cov, front, score);
      VisitElsewhere(Fresh(cov), front, score, cells[|cells| - 1]);
    }
  }

  /** With the corrected stride the strongest point (the first, in descending score order) is
      kept by every pass whenever its score clears the empty grid's -1. */
  lemma CorrectedKeepsFirst(kpts: seq<KeyPoint>, st: Setting)
    requires Fits(st) && st.stride == st.cols + 1 && AllInGrid(st, kpts) && st.n >= 0
    requires |kpts| >= 1 && kpts[0].response >= 0 && -1.0 <= kpts[0].response as real + st.t
    ensures var kept := Scan(kpts, st, |kpts|).kept; |kept| >= 1 && kept[0] == 0
  {
    var k := kpts[0];
    assert k in kpts;
    var width := Width(st.w, k.response);
    CorrectedBlockIncreasing(st, Lo(k.y, width), Hi(k.y, width, st.rows), Lo(k.x, width), Hi(k.x, width, st.cols));
    BlockWithin(st, Lo(k.y, width), Hi(k.y, width, st.rows), Lo(k.x, width), Hi(k.x, width, st.cols));
    var init := Scan(kpts, st, 0).covered;
    VisitFresh(init, Window(st, k), k.response);
    IndexInBounds(st, k.y, k.x);
    assert Scan(kpts, st, 1).kept == [0];
    ScanGrows(kpts, st, 1, |kpts|);
  }

  /** The window of the lone point of the example below: rows 0 .. 1 and columns 0 .. 1, with
      the source's stride of 1. */
  lemma LoneWindow()
    ensures Window(AsWritten(1, 1, 6, 0.0, 0), KeyPoint(0, 0, 100)) == [0, 1, 1, 2]
  {
    var st := AsWritten(1, 1, 6, 0.0, 0);
    assert Width(6, 100) == 5;
    assert Row(st, 0, 0, 1) == [0, 1];
    assert Row(st, 1, 0, 1) == [1, 2];
    assert Block(st, 0, -1, 0, 1) == [];
    assert Block(st, 0, 0, 0, 1) == [0, 1];
  }

  /** After the first two cells of the example window, index 1 holds the score. */
  lemma LoneFirstTwo()
    ensures Within([0, 1], 4) && Visit(Fresh([-1, -1, -1, -1]), [0, 1], 100).covered[1] == 100
  {
    var m := Fresh([-1, -1, -1, -1]);
    VisitSnoc(m, [], 0, 100);
    assert [] + [0] == [0];
    assert Visit(m, [0], 100).covered[1] == -1;
    VisitSnoc(m, [0], 1, 100);
    assert [0] + [1] == [0, 1];
  }

  /** Index 1 comes round twice, and the second time it already holds the score. */
  lemma LoneVisit()
    ensures Within([0, 1, 1, 2], 4) && !Visit(Fresh([-1, -1, -1, -1]), [0, 1, 1, 2], 100).best
  {
    var m := Fresh([-1, -1, -1, -1]);
    LoneFirstTwo();
    VisitSnoc(m, [0, 1], 1, 100);
    assert [0, 1] + [1] == [0, 1, 1];
    VisitSnoc(m, [0, 1, 1], 2, 100);
    assert [0, 1, 1] + [2] == [0, 1, 1, 2];
  }

  /** The empty grid of the example: four cells at -1. */
  lemma LoneStart()
    ensures var st := AsWritten(1, 1, 6, 0.0, 0);
      Fits(st) && AllInGrid(st, [KeyPoint(0, 0, 100)])
      && Scan([KeyPoint(0, 0, 100)], st, 0) == Sweep([-1, -1, -1, -1], [])
  {
    var st := AsWritten(1, 1, 6, 0.0, 0);
    assert CellCount(st) == 4;
  }

  /** The source's stride drops a lone point: in a frame one pixel each way (a 2 by 2 grid) the
      first pass's window of the point at (0, 0) with score 100 visits index 1 twice, and the
      second visit finds the cell already at the point's own score. */
  lemma AsWrittenDropsLonePoint()
    ensures var st := AsWritten(1, 1, 6, 0.0, 0);
      Fits(st) && AllInGrid(st, [KeyPoint(0, 0, 100)]) && Scan([KeyPoint(0, 0, 100)], st, 1).kept == []
  {
    var st := AsWritten(1, 1, 6, 0.0, 0);
    var k := KeyPoint(0, 0, 100);
    LoneStart();
    LoneWindow();
    LoneVisit();
    var sw := Sweep([-1, -1, -1, -1], []);
    assert StepPoint(st, sw, k, 0).kept == [];
    assert [k][0] == k;
  }

  /** Once every window is empty the grid stays at -1 and each point clearing it is kept, until
      N + 1 are. */
  lemma {:induction false} NarrowScan(kpts: seq<KeyPoint>, st: Setting, i: nat)
    requires Fits(st) && AllInGrid(st, kpts) && i <= |kpts| && st.n >= 0
    requires forall k :: k in kpts ==> Width(st.w, k.response) < 0 && -1.0 <= k.response as real + st.t
    ensures Scan(kpts, st, i).covered == seq(CellCount(st), _ => -1)
    ensures |Scan(kpts, st, i).kept| == if i < st.n + 1 then i else st.n + 1
  {
    if i > 0 {
      NarrowScan(kpts, st, i - 1);
      var k := kpts[i - 1];
      assert k in kpts;
      var width := Width(st.w, k.response);
      assert Hi(k.y, width, st.rows) < Lo(k.y, width);
      assert Window(st, k) == [];
      IndexInBounds(st, k.y, k.x);
    }
  }

  /** The outer loop's test: more than N - N * epsilon points kept. */
  predicate Enough(count: nat, n: int, eps: real) {
    count as real > n as real - n as real * eps
  }

  /** Too few points kept at window parameter w: the outer loop goes on. */
  ghost predicate Short(kpts: seq<KeyPoint>, st: Setting, eps: real)
    requires Fits(st) && AllInGrid(st, kpts)
  {
    !Enough(|Scan(kpts, st, |kpts|).kept|, st.n, eps)
  }

  /** At w <= -4 a pass keeps N + 1 points, more than N - N * epsilon. */
  lemma NarrowPassSuffices(kpts: seq<KeyPoint>, st: Setting, eps: real)
    requires Fits(st) && AllInGrid(st, kpts) && 0 <= st.n < |kpts| && eps >= 0.0 && st.w <= -4
    requires forall k :: k in kpts ==> 0 <= k.response <= 255 && -1.0 <= k.response as real + st.t
    ensures !Short(kpts, st, eps)
  {
    forall k | k in kpts ensures Width(st.w, k.response) < 0 {
      WidthNegative(st.w, k.response);
    }
    NarrowScan(kpts, st, |kpts|);
    NonPositiveProduct(-(st.n as real), eps);
  }

  /** The corrected pass at window parameter w on the frame minX .. maxX, minY .. maxY falls short. */
  ghost predicate ShortAt(kpts: seq<KeyPoint>, minX: int, maxX: int, minY: int, maxY: int, w: int, t: real, n: int, eps: real)
    requires maxX - minX >= 0 && maxY - minY >= 0
    requires AllInGrid(Corrected(maxX - minX, maxY - minY, w, t, n), kpts)
  {
    Short(kpts, Corrected(maxX - minX, maxY - minY, w, t, n), eps)
  }

  /** DistributeKeypointsVSSC with the corrected stride: passes at w = 6, 5, ... until one keeps
      more than N - N * epsilon points; the result is that pass's points in input order. It
      ends by w = -4, where every window is empty. */
  method DistributeVssc(kpts: seq<KeyPoint>, minX: int, maxX: int, minY: int, maxY: int, n: int,
                        eps: real, t: real)
    returns (r: seq<KeyPoint>, sel: seq<nat>, w: int)
    requires maxX - minX >= 0 && maxY - minY >= 0 && 0 <= n < |kpts| && eps >= 0.0
    requires forall k :: k in kpts ==> 0 <= k.x <= maxX - minX && 0 <= k.y <= maxY - minY
    requires forall k :: k in kpts ==> 0 <= k.response <= 255 && -1.0 <= k.response as real + t
    ensures var st := Corrected(maxX - minX, maxY - minY, w, t, n);
      && -4 <= w <= 6 && AllInGrid(st, kpts)
      && sel == Scan(kpts, st, |kpts|).kept && !Short(kpts, st, eps)
    ensures forall w' :: w < w' <= 6 ==> ShortAt(kpts, minX, maxX, minY, maxY, w', t, n, eps)
    ensures IsSelection(sel, |kpts|) && r == Gather(kpts, sel) && 1 <= |sel| <= n + 1 && sel[0] == 0
  {
    var cols, rows := maxX - minX, maxY - minY;
    w := 6;
    sel := Pass(kpts, Corrected(cols, rows, w, t, n));
    while !Enough(|sel|, n, eps)
      invariant -4 <= w <= 6
      invariant sel == Scan(kpts, Corrected(cols, rows, w, t, n), |kpts|).kept
      invariant w <= -4 ==> !Short(kpts, Corrected(cols, rows, w, t, n), eps)
      invariant forall w' :: w < w' <= 6 ==> ShortAt(kpts, minX, maxX, minY, maxY, w', t, n, eps)
      decreases w + 4
    {
      w := w - 1;
      sel := Pass(kpts, Corrected(cols, rows, w, t, n));
      if w <= -4 {
        NarrowPassSuffices(kpts, Corrected(cols, rows, w, t, n), eps);
      }
    }
    ScanSelection(kpts, Corrected(cols, rows, w, t, n), |kpts|);
    CorrectedKeepsFirst(kpts, Corrected(cols, rows, w, t, n));
    r := GatherKeypoints(kpts, sel);
  }
}
