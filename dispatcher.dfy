/** Distribution::DistributeKeypoints in src/Distribution.cpp: the entry point that picks a
    strategy by mode, after two early returns and, for the suppression strategies, a sort of
    the points by descending response. */
module Dispatch {
  import opened KeyPoints
  import Sorting
  import Retention
  import Grid
  import QuadTreeDistribution
  import BinarySearch
  import Ranms
  import Vssc
  import NodeLists
  import QuadTree
  import Subdivision
  import Suppression

  /** The DistributionMethod tags the switch knows, and QUADTREE, which it does not handle. */
  datatype Mode =
    | Naive | Ranms | QuadTree | QuadTreeOrbSlam | Grid | KeepAll
    | AnmsKdTree | AnmsRangeTree | Ssc | SoftSsc | Vssc

  /** epsilon, the tolerance of the searches and of VSSC's stopping test. */
  const Epsilon: real := 0.1

  /** What the engine takes from outside the function: the grid's cell size
      (BUCKETING_GRID_SIZE), the search bracket derived from (rows, cols, N, size), and whether
      the k-d tree's and the range tree's queries include points at exactly the query width. */
  datatype Tuning = Tuning(gridSize: int, bracketOf: Ranms.Bracketing, kdInclusive: bool, rtInclusive: bool)

  /** The modes whose points are sorted by descending response before the strategy runs. */
  predicate SortsFirst(mode: Mode) {
    mode.AnmsRangeTree? || mode.AnmsKdTree? || mode.Ssc? || mode.Ranms? || mode.SoftSsc? || mode.Vssc?
  }

  /** The modes that keep a subsequence of their input, picked by a suppression strategy; QUADTREE
      reaches the default case, Soft-SSC on the whole frame. */
  predicate Suppresses(mode: Mode) {
    mode.AnmsKdTree? || mode.AnmsRangeTree? || mode.Ssc? || mode.SoftSsc? || mode.Vssc? || mode.QuadTree?
  }

  /** What each strategy needs of the region, of width w and height h: the grid strategies a
      non-empty region and cell size, the ORB-SLAM quadtree a height and at least one root, the
      coverage-grid strategies a region that is not inverted. */
  predicate RegionFits(mode: Mode, w: int, h: int, gridSize: int) {
    match mode
    case Grid | Ranms => w >= 1 && h >= 1 && gridSize >= 1
    case QuadTreeOrbSlam => h > 0 && 2 * w >= h
    case Ssc | SoftSsc | QuadTree | Vssc => w >= 0 && h >= 0
    case _ => true
  }

  /** What each strategy needs of a point, in coordinates relative to the region's corner: GRID
      files it by non-negative coordinates, the ORB-SLAM quadtree picks its root by x < w, RANMS
      files it into a cell of the grid, and the coverage grids index their cells up to the
      region's far edge inclusive. The k-d tree, the range tree, NAIVE and KEEP_ALL take any
      point. */
  predicate PointFits(mode: Mode, w: int, h: int, k: KeyPoint) {
    match mode
    case Grid => k.x >= 0 && k.y >= 0
    case QuadTreeOrbSlam => 0 <= k.x < w
    case Ranms => 0 <= k.x < w && 0 <= k.y < h
    case Ssc | SoftSsc | QuadTree | Vssc => 0 <= k.x <= w && 0 <= k.y <= h
    case _ => true
  }

  /** What a strategy's run leaves beside its result, so that its contract can be stated: the
      points GRID and RANMS keep in each cell (with RANMS's selection in each), VSSC's last
      window parameter, and the ORB-SLAM quadtree's subdivision with the pick in each node. */
  datatype Trace =
    | NoTrace
    | CellTrace(kept: seq<seq<KeyPoint>>, sels: seq<seq<nat>>)
    | WidthTrace(w: int)
    | TreeTrace(cells: seq<seq<KeyPoint>>, picks: seq<nat>, final: NodeLists.NodeList, passes: nat,
                orders: seq<seq<nat>>)

  /** The selection a search mode keeps: the one at the last width the bisection of the
      bracket derived from (rows, cols, N, size) tried, with the mode's own suppression rule.
      QUADTREE falls to the default case, Soft-SSC on the frame (cols, -1, rows, -1), which the
      search reads as the whole cols x rows region. */
  ghost predicate Searched(mode: Mode, s: seq<KeyPoint>, cols: int, rows: int, n: int,
                           threshold: real, tune: Tuning, sel: seq<nat>)
  {
    var b := tune.bracketOf(rows, cols, n, |s|);
    match mode
    case AnmsKdTree =>
      sel == BinarySearch.Selected(BinarySearch.KdTree(tune.kdInclusive), s, b, 1)
    case AnmsRangeTree =>
      sel == BinarySearch.Selected(BinarySearch.RangeTree(tune.rtInclusive), s, b, -1)
    case Ssc =>
      sel == BinarySearch.Selected(BinarySearch.Ssc(Suppression.Frame(cols, rows, 0, 0)), s, b, -1)
    case SoftSsc | QuadTree =>
      sel == BinarySearch.Selected(BinarySearch.SoftSsc(BinarySearch.SoftFrame(cols, -1, rows, -1), threshold), s, b, -1)
    case _ => false
  }

  /** What the switch does with the points s in each mode, r the points it returns and sel the
      positions in s a suppression strategy keeps. */
  ghost predicate Follows(mode: Mode, s: seq<KeyPoint>, minX: int, maxX: int, minY: int, maxY: int, n: int,
                          threshold: real, tune: Tuning, r: seq<KeyPoint>, sel: seq<nat>, t: Trace)
    requires RegionFits(mode, maxX - minX, maxY - minY, tune.gridSize)
    requires forall k :: k in s ==> PointFits(mode, maxX - minX, maxY - minY, k)
  {
    var cols, rows := maxX - minX, maxY - minY;
    var b := tune.bracketOf(rows, cols, n, |s|);
    match mode
    case KeepAll => r == s
    case Naive =>
      && |r| == n
      && forall k, d :: k in r && d in multiset(s) - multiset(r) ==> k.response >= d.response
    case AnmsKdTree | AnmsRangeTree | Ssc | SoftSsc | QuadTree => Searched(mode, s, cols, rows, n, threshold, tune, sel)
    case Vssc =>
      && t.WidthTrace?
      && var st := Vssc.Corrected(cols, rows, t.w, threshold, n);
      && -4 <= t.w <= 6 && Vssc.AllInGrid(st, s)
      && sel == Vssc.Scan(s, st, |s|).kept && !Vssc.Short(s, st, Epsilon)
      && forall w' :: t.w < w' <= 6 ==> Vssc.ShortAt(s, minX, maxX, minY, maxY, w', threshold, n, Epsilon)
    case Grid =>
      && t.CellTrace?
      && var g := Grid.Geometry(cols, rows, tune.gridSize);
      && |t.kept| == g.nx * g.ny && r == Concat(t.kept)
      && forall c :: 0 <= c < |t.kept| ==>
           Grid.BestOf(t.kept[c], Bucket(s, Grid.CellOf(g), c), Grid.PerCell(n, g.nx * g.ny))
    case Ranms =>
      && t.CellTrace?
      && var g := Grid.Geometry(cols, rows, tune.gridSize);
      && |t.kept| == |t.sels| == g.nx * g.ny && r == Concat(t.kept)
      && forall c :: 0 <= c < |t.kept| ==>
           Ranms.Thinned(t.kept[c], t.sels[c], Bucket(s, Grid.CellOf(g), c), Grid.PerCell(n, g.nx * g.ny),
                         g, c, tune.bracketOf, Vssc.Trunc(threshold))
    case QuadTreeOrbSlam =>
      && t.TreeTrace?
      && Subdivision.Subdivided(QuadTree.Pruned(QuadTree.Seeded(s, cols, rows)), n, t.passes, t.orders, t.final)
      && NodeLists.Valid(t.final) && t.cells == NodeLists.Cells(t.final)
      && |r| == |t.cells| == |t.picks|
      && forall i :: 0 <= i < |r| ==> IsFirstMax(t.cells[i], t.picks[i]) && r[i] == t.cells[i][t.picks[i]]
  }

  /** The sort before the switch: cv::sortIdx descending, then the points in that order. */
  method SortByResponse(kpts: seq<KeyPoint>) returns (sorted: seq<KeyPoint>)
    ensures multiset(sorted) == multiset(kpts) && ResponseDescending(sorted)
  {
    var a := new KeyPoint[|kpts|](i requires 0 <= i < |kpts| => kpts[i]);
    assert a[..] == kpts;
    Sorting.SelectLargest(a, Response, a.Length);
    sorted := a[..];
  }

  /** The suppression modes of the switch, on the points as the sort left them. */
  method Suppress(s: seq<KeyPoint>, minX: int, maxX: int, minY: int, maxY: int, n: int,
                  mode: Mode, threshold: real, tune: Tuning)
    returns (r: seq<KeyPoint>, sel: seq<nat>, ghost t: Trace)
    requires Suppresses(mode) && 0 < n < |s|
    requires RegionFits(mode, maxX - minX, maxY - minY, tune.gridSize)
    requires forall k :: k in s ==> PointFits(mode, maxX - minX, maxY - minY, k)
    requires forall rows, cols, n, size :: BinarySearch.Usable(tune.bracketOf(rows, cols, n, size))
    requires mode.Vssc? ==> forall k :: k in s ==> 0 <= k.response <= 255 && -1.0 <= k.response as real + threshold
    ensures IsSelection(sel, |s|) && r == Gather(s, sel)
    ensures mode.Vssc? ==> 1 <= |r| <= n + 1 && r[0] == s[0]
    ensures Follows(mode, s, minX, maxX, minY, maxY, n, threshold, tune, r, sel, t)
  {
    var cols, rows := maxX - minX, maxY - minY;
    t := NoTrace;
    match mode {
      case AnmsKdTree =>
        r, sel := SuppressKdTree(s, cols, rows, n, tune);
      case AnmsRangeTree =>
        r, sel := SuppressRangeTree(s, cols, rows, n, tune);
      case Ssc =>
        r, sel := SuppressSsc(s, cols, rows, n, tune);
      case Vssc =>
        r, sel, t := SuppressVssc(s, minX, maxX, minY, maxY, n, threshold, tune);
      case SoftSsc =>
        r, sel := SuppressSoftSsc(s, cols, rows, n, mode, threshold, tune);
      case QuadTree =>
        r, sel := SuppressSoftSsc(s, cols, rows, n, mode, threshold, tune);
    }
  }

  /** The ANMS k-d tree case of the switch; the search takes no threshold. */
  method SuppressKdTree(s: seq<KeyPoint>, cols: int, rows: int, n: int, tune: Tuning)
    returns (r: seq<KeyPoint>, sel: seq<nat>)
    requires BinarySearch.Usable(tune.bracketOf(rows, cols, n, |s|))
    ensures IsSelection(sel, |s|) && r == Gather(s, sel)
    ensures Searched(Mode.AnmsKdTree, s, cols, rows, n, 0.0, tune, sel)
  {
    ghost var trials;
    r, sel, trials := BinarySearch.DistributeKdTree(s, tune.bracketOf(rows, cols, n, |s|), tune.kdInclusive);
  }

  /** The ANMS range tree case of the switch; the search takes no threshold. */
  method SuppressRangeTree(s: seq<KeyPoint>, cols: int, rows: int, n: int, tune: Tuning)
    returns (r: seq<KeyPoint>, sel: seq<nat>)
    requires BinarySearch.Usable(tune.bracketOf(rows, cols, n, |s|))
    ensures IsSelection(sel, |s|) && r == Gather(s, sel)
    ensures Searched(Mode.AnmsRangeTree, s, cols, rows, n, 0.0, tune, sel)
  {
    ghost var trials;
    r, sel, trials := BinarySearch.DistributeRangeTree(s, tune.bracketOf(rows, cols, n, |s|), tune.rtInclusive);
  }

  /** The SSC case of the switch; the search takes no threshold. */
  method SuppressSsc(s: seq<KeyPoint>, cols: int, rows: int, n: int, tune: Tuning)
    returns (r: seq<KeyPoint>, sel: seq<nat>)
    requires cols >= 0 && rows >= 0
    requires forall k :: k in s ==> 0 <= k.x <= cols && 0 <= k.y <= rows
    requires BinarySearch.Usable(tune.bracketOf(rows, cols, n, |s|))
    ensures IsSelection(sel, |s|) && r == Gather(s, sel)
    ensures Searched(Mode.Ssc, s, cols, rows, n, 0.0, tune, sel)
  {
    ghost var trials;
    r, sel, trials := BinarySearch.DistributeSsc(s, rows, cols, tune.bracketOf(rows, cols, n, |s|));
  }

  /** The Soft-SSC case of the switch, and QUADTREE, which falls to the default case: Soft-SSC
      on the flattened frame (cols, -1, rows, -1). */
  method SuppressSoftSsc(s: seq<KeyPoint>, cols: int, rows: int, n: int, mode: Mode, threshold: real, tune: Tuning)
    returns (r: seq<KeyPoint>, sel: seq<nat>)
    requires mode.SoftSsc? || mode.QuadTree?
    requires cols >= 0 && rows >= 0
    requires forall k :: k in s ==> 0 <= k.x <= cols && 0 <= k.y <= rows
    requires BinarySearch.Usable(tune.bracketOf(rows, cols, n, |s|))
    ensures IsSelection(sel, |s|) && r == Gather(s, sel)
    ensures Searched(mode, s, cols, rows, n, threshold, tune, sel)
  {
    ghost var trials;
    r, sel, trials := BinarySearch.DistributeSoftSsc(s, cols, -1, rows, -1, tune.bracketOf(rows, cols, n, |s|), threshold);
  }

  /** The VSSC case of the switch. */
  method SuppressVssc(s: seq<KeyPoint>, minX: int, maxX: int, minY: int, maxY: int, n: int,
                      threshold: real, tune: Tuning)
    returns (r: seq<KeyPoint>, sel: seq<nat>, ghost t: Trace)
    requires 0 < n < |s| && maxX - minX >= 0 && maxY - minY >= 0
    requires forall k :: k in s ==> PointFits(Mode.Vssc, maxX - minX, maxY - minY, k)
    requires forall k :: k in s ==> 0 <= k.response <= 255 && -1.0 <= k.response as real + threshold
    ensures IsSelection(sel, |s|) && r == Gather(s, sel) && 1 <= |r| <= n + 1 && r[0] == s[0]
    ensures Follows(Mode.Vssc, s, minX, maxX, minY, maxY, n, threshold, tune, r, sel, t)
  {
    var w;
    r, sel, w := Vssc.DistributeVssc(s, minX, maxX, minY, maxY, n, Epsilon, threshold);
    t := WidthTrace(w);
  }

  /** The other modes of the switch. */
  method Reduce(s: seq<KeyPoint>, minX: int, maxX: int, minY: int, maxY: int, n: int,
                mode: Mode, threshold: real, tune: Tuning)
    returns (r: seq<KeyPoint>, ghost t: Trace)
    requires !Suppresses(mode) && 0 < n < |s|
    requires RegionFits(mode, maxX - minX, maxY - minY, tune.gridSize)
    requires forall k :: k in s ==> PointFits(mode, maxX - minX, maxY - minY, k)
    requires forall rows, cols, n, size :: BinarySearch.Usable(tune.bracketOf(rows, cols, n, size))
    ensures multiset(r) <= multiset(s)
    ensures mode.KeepAll? ==> r == s
    ensures mode.Naive? ==>
      |r| == n && forall k, d :: k in r && d in multiset(s) - multiset(r) ==> k.response >= d.response
    ensures mode.Grid? ==> |r| <= n
    ensures mode.QuadTreeOrbSlam? ==> 1 <= |r|
    ensures Follows(mode, s, minX, maxX, minY, maxY, n, threshold, tune, r, [], t)
  {
    t := NoTrace;
    match mode {
      case Naive =>
        r := Retention.DistributeNaive(s, n);
      case Ranms =>
        ghost var kept, sels;
        r, kept, sels := Ranms.DistributeRanms(s, minX, maxX, minY, maxY, n, tune.gridSize, Vssc.Trunc(threshold), tune.bracketOf);
        t := CellTrace(kept, sels);
      case QuadTreeOrbSlam =>
        ghost var cells, picks, final, passes, orders;
        r, cells, picks, final, passes, orders := QuadTreeDistribution.DistributeQuadTreeOrbSlam(s, minX, maxX, minY, maxY, n);
        t := TreeTrace(cells, picks, final, passes, orders);
      case Grid =>
        ghost var kept;
        r, kept := Grid.DistributeGrid(s, minX, maxX, minY, maxY, n, tune.gridSize);
        t := CellTrace(kept, []);
      case KeepAll =>
        r := s;
    }
  }

  /** A reordering of the points has as many points, each one of the original ones. */
  lemma SameMembers(kpts: seq<KeyPoint>, s: seq<KeyPoint>)
    requires multiset(s) == multiset(kpts)
    ensures |s| == |kpts| && forall k :: k in s ==> k in kpts
  {
    assert |s| == |multiset(s)| == |kpts|;
    assert forall k :: k in s ==> k in multiset(s);
  }

  /** DistributeKeypoints. With N no smaller than the number of points (or negative, which the
      unsigned comparison makes huge) the points come back unchanged; with N = 0 none do;
      otherwise the chosen strategy runs on the points, sorted first for the suppression
      modes. */
  method DistributeKeypoints(kpts: seq<KeyPoint>, minX: int, maxX: int, minY: int, maxY: int, n: int,
                             mode: Mode, threshold: real, tune: Tuning)
    returns (r: seq<KeyPoint>, ghost sorted: seq<KeyPoint>, ghost sel: seq<nat>, ghost t: Trace)
    requires RegionFits(mode, maxX - minX, maxY - minY, tune.gridSize)
    requires forall k :: k in kpts ==> PointFits(mode, maxX - minX, maxY - minY, k)
    requires forall rows, cols, n, size :: BinarySearch.Usable(tune.bracketOf(rows, cols, n, size))
    requires mode.Vssc? ==> forall k :: k in kpts ==> 0 <= k.response <= 255 && -1.0 <= k.response as real + threshold
    ensures n < 0 || |kpts| <= n ==> r == kpts
    ensures n == 0 < |kpts| ==> r == []
    ensures multiset(r) <= multiset(kpts)
    ensures 0 < n < |kpts| ==> multiset(sorted) == multiset(kpts) && forall k :: k in sorted ==> k in kpts
    ensures 0 < n < |kpts| && SortsFirst(mode) ==> ResponseDescending(sorted)
    ensures 0 < n < |kpts| && !SortsFirst(mode) ==> sorted == kpts
    ensures 0 < n < |kpts| && Suppresses(mode) ==> IsSelection(sel, |sorted|) && r == Gather(sorted, sel)
    ensures 0 < n < |kpts| && mode.KeepAll? ==> r == kpts
    ensures 0 < n < |kpts| && mode.Naive? ==>
      |r| == n && forall k, d :: k in r && d in multiset(kpts) - multiset(r) ==> k.response >= d.response
    ensures 0 < n < |kpts| && mode.Grid? ==> |r| <= n
    ensures 0 < n < |kpts| && mode.QuadTreeOrbSlam? ==> 1 <= |r|
    ensures 0 < n < |kpts| && mode.Vssc? ==> 1 <= |r| <= n + 1 && r[0] == sorted[0]
    ensures 0 < n < |kpts| ==> Follows(mode, sorted, minX, maxX, minY, maxY, n, threshold, tune, r, sel, t)
  {
    sorted, sel, t := kpts, [], NoTrace;
    if n < 0 || |kpts| <= n {
      return kpts, sorted, sel, t;
    }
    if n == 0 {
      return [], sorted, sel, t;
    }
    var s := kpts;
    if SortsFirst(mode) {
      s := SortByResponse(kpts);
    }
    sorted := s;
    SameMembers(kpts, s);
    if Suppresses(mode) {
      r, sel, t := Suppress(s, minX, maxX, minY, maxY, n, mode, threshold, tune);
      GatherSubMultiset(s, sel);
    } else {
      r, t := Reduce(s, minX, maxX, minY, maxY, n, mode, threshold, tune);
    }
  }
}
