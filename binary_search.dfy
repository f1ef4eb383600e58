/** The bracketed binary search over the suppression width that DistributeKeypointsKdT_ANMS,
    DistributeKeypointsRT_ANMS, DistributeKeypointsSSC and DistributeKeypointsSoftSSC in
    src/Distribution.cpp share, and the four strategies built on it. */
module BinarySearch {
  import opened KeyPoints
  import opened Suppression
  import opened Coverage

  /** The search's starting bracket [low, high] and its tolerance band [kMin, kMax]. The
      source derives them in floating point from the region, N and epsilon; here they are
      given. */
  datatype Bracket = Bracket(low: int, high: int, kMin: int, kMax: int)

  /** The bracket every strategy is entered with: a positive lower end (the dispatcher only
      searches when there are more points than N >= 1, so floor(sqrt(size / N)) >= 1) and a
      band of non-negative counts. */
  predicate Usable(b: Bracket) {
    b.low >= 1 && b.kMin >= 0 && b.kMax >= 0
  }

  /** (high - low) / 2 in C: the quotient truncated toward zero. */
  function Half(d: int): (h: int)
    ensures d >= 0 ==> 0 <= h && 2 * h <= d < 2 * h + 2
    ensures d < 0 ==> h <= 0 && 2 * h >= d > 2 * h - 2
  {
    if d >= 0 then d / 2 else -((-d) / 2)
  }

  /** The first trial width of a search. */
  function FirstWidth(b: Bracket): int {
    b.low + Half(b.high - b.low)
  }

  /** The four suppressors, with what each fixes besides the width. */
  datatype Variant =
    | KdTree(inclusive: bool)
    | RangeTree(inclusive: bool)
    | Ssc(frame: Frame)
    | SoftSsc(frame: Frame, threshold: real)

  /** The suppression rule of a trial of the given width. */
  function RuleAt(v: Variant, w: int): Rule {
    match v
    case KdTree(inclusive) => Disc(w, inclusive)
    case RangeTree(inclusive) => Square(w, inclusive)
    case Ssc(f) => Cover(f, w)
    case SoftSsc(f, t) => SoftCover(f, w, t)
  }

  /** What a variant needs of the points: a grid variant indexes its grid by the cells of the
      points, which must lie in its frame. */
  predicate Ready(v: Variant, kpts: seq<KeyPoint>) {
    (v.Ssc? || v.SoftSsc?) ==>
      v.frame.cols >= 0 && v.frame.rows >= 0 && forall k :: k in kpts ==> InFrame(v.frame, k)
  }

  /** How many points a trial of width w keeps. */
  ghost function Count(v: Variant, kpts: seq<KeyPoint>, w: int): nat {
    |Trial(kpts, RuleAt(v, w), |kpts|)|
  }

  /** One trial of a variant: the greedy selection of its rule at width w. */
  method RunTrial(v: Variant, kpts: seq<KeyPoint>, w: int) returns (res: seq<nat>)
    requires w >= 1 && Ready(v, kpts)
    ensures res == Trial(kpts, RuleAt(v, w), |kpts|)
    ensures IsSelection(res, |kpts|) && |res| == Count(v, kpts, w)
  {
    KeptSelection(kpts, Near(RuleAt(v, w)), Admit(RuleAt(v, w)), |kpts|);
    match v
    case KdTree(inclusive) => res := SelectByQuery(kpts, Disc(w, inclusive));
    case RangeTree(inclusive) => res := SelectByQuery(kpts, Square(w, inclusive));
    case Ssc(f) => res := SelectByCoverage(kpts, f, w);
    case SoftSsc(f, t) => res := SelectBySoftCoverage(kpts, f, w, t);
  }

  /** The count lies in the tolerance band. */
  predicate InBand(b: Bracket, n: int) {
    b.kMin <= n <= b.kMax
  }

  /** The protocol a sequence of trial widths follows: every width lies in the starting
      bracket, every trial but the last was rejected, and each rejection steers the later
      widths: too few points sends them below the width, any other rejected count above it. */
  ghost predicate Protocol(v: Variant, kpts: seq<KeyPoint>, b: Bracket, trials: seq<int>) {
    && (forall p :: 0 <= p < |trials| ==> b.low <= trials[p] <= b.high)
    && (forall p :: 0 <= p < |trials| - 1 ==> !InBand(b, Count(v, kpts, trials[p])))
    && Steered(v, kpts, b, trials)
  }

  ghost predicate Steered(v: Variant, kpts: seq<KeyPoint>, b: Bracket, trials: seq<int>) {
    forall p, q :: 0 <= p < q < |trials| ==>
      (Count(v, kpts, trials[p]) < b.kMin ==> trials[q] < trials[p]) &&
      (Count(v, kpts, trials[p]) >= b.kMin ==> trials[q] > trials[p])
  }

  /** Under the protocol no width is tried twice, which is what ends the search. */
  lemma ProtocolDistinct(v: Variant, kpts: seq<KeyPoint>, b: Bracket, trials: seq<int>)
    requires Protocol(v, kpts, b, trials)
    ensures forall p, q :: 0 <= p < q < |trials| ==> trials[p] != trials[q]
  {
  }

  /** The widths the search tries from the bracket [low, high] after trying prev: the midpoint
      low + (high - low) / 2 unless it repeats prev or the bracket is empty; the search ends on
      a count in the band, goes below the width on too few points and above it on too many. */
  ghost function Search(v: Variant, kpts: seq<KeyPoint>, b: Bracket, low: int, high: int, prev: int): seq<int>
    decreases if low <= high then high - low + 1 else 0
  {
    var width := low + Half(high - low);
    if width == prev || low > high then []
    else if InBand(b, Count(v, kpts, width)) then [width]
    else if Count(v, kpts, width) < b.kMin then [width] + Search(v, kpts, b, low, width - 1, width)
    else [width] + Search(v, kpts, b, width + 1, high, width)
  }

  /** After the widths trials, the search has reached the bracket [low, high] with prev the
      last width: what it tries from there completes the search from the starting bracket. */
  ghost predicate Tracks(v: Variant, kpts: seq<KeyPoint>, b: Bracket, trials: seq<int>, low: int, high: int, prev: int, prev0: int) {
    forall lo, hi, pr {:trigger Search(v, kpts, b, lo, hi, pr)} :: lo == low && hi == high && pr == prev ==>
      trials + Search(v, kpts, b, lo, hi, pr) == Search(v, kpts, b, b.low, b.high, prev0)
  }

  /** trials is the whole search from the starting bracket [b.low, b.high] after prev0, stated
      for the one bracket that matches so that the equation is only unfolded where it is used. */
  ghost predicate Searched(v: Variant, kpts: seq<KeyPoint>, b: Bracket, prev0: int, trials: seq<int>) {
    forall lo, hi {:trigger Search(v, kpts, b, lo, hi, prev0)} :: lo == b.low && hi == b.high ==>
      trials == Search(v, kpts, b, lo, hi, prev0)
  }


  /** The search starts from the starting bracket with nothing tried. */
  lemma TracksStart(v: Variant, kpts: seq<KeyPoint>, b: Bracket, prev0: int)
    ensures Tracks(v, kpts, b, [], b.low, b.high, prev0, prev0)
  {
    assert [] + Search(v, kpts, b, b.low, b.high, prev0) == Search(v, kpts, b, b.low, b.high, prev0);
  }

  /** A rejected width in a non-empty bracket moves the search on to the narrowed bracket. */
  lemma TracksStep(v: Variant, kpts: seq<KeyPoint>, b: Bracket, trials: seq<int>, low: int, high: int, prev: int, prev0: int,
                   width: int, low': int, high': int)
    requires Tracks(v, kpts, b, trials, low, high, prev, prev0)
    requires low <= high && width == low + Half(high - low) && width != prev
    requires !InBand(b, Count(v, kpts, width))
    requires Count(v, kpts, width) < b.kMin ==> low' == low && high' == width - 1
    requires Count(v, kpts, width) >= b.kMin ==> low' == width + 1 && high' == high
    ensures Tracks(v, kpts, b, trials + [width], low', high', width, prev0)
  {
    var rest := Search(v, kpts, b, low', high', width);
    assert Search(v, kpts, b, low, high, prev) == [width] + rest;
    assert trials + ([width] + rest) == (trials + [width]) + rest;
  }

  /** A width in the band ends the search with it. */
  lemma TracksDone(v: Variant, kpts: seq<KeyPoint>, b: Bracket, trials: seq<int>, low: int, high: int, prev: int, prev0: int,
                   width: int)
    requires Tracks(v, kpts, b, trials, low, high, prev, prev0)
    requires low <= high && width == low + Half(high - low) && width != prev
    requires InBand(b, Count(v, kpts, width))
    ensures Searched(v, kpts, b, prev0, trials + [width])
  {
    assert Search(v, kpts, b, low, high, prev) == [width];
  }

  /** An empty bracket or a repeated width ends the search with the widths tried so far. */
  lemma TracksEnd(v: Variant, kpts: seq<KeyPoint>, b: Bracket, trials: seq<int>, low: int, high: int, prev: int, prev0: int)
    requires Tracks(v, kpts, b, trials, low, high, prev, prev0)
    requires low > high || low + Half(high - low) == prev
    ensures Searched(v, kpts, b, prev0, trials)
  {
    assert Search(v, kpts, b, low, high, prev) == [];
    assert trials + [] == trials;
  }

  /** The loop invariant of the search: the current bracket [low, high] lies in the starting
      one and excludes, on the correct side, every width already rejected. */
  ghost predicate SearchInv(v: Variant, kpts: seq<KeyPoint>, b: Bracket, trials: seq<int>, low: int, high: int) {
    && b.low <= low && high <= b.high
    && (forall p :: 0 <= p < |trials| ==>
          && b.low <= trials[p] <= b.high
          && !InBand(b, Count(v, kpts, trials[p]))
          && (Count(v, kpts, trials[p]) < b.kMin ==> high < trials[p])
          && (Count(v, kpts, trials[p]) >= b.kMin ==> low > trials[p]))
    && Steered(v, kpts, b, trials)
  }

  /** A rejected trial inside the bracket narrows it and keeps the invariant. */
  lemma SearchStep(v: Variant, kpts: seq<KeyPoint>, b: Bracket, trials: seq<int>, low: int, high: int,
                   width: int, low': int, high': int)
    requires SearchInv(v, kpts, b, trials, low, high) && low <= width <= high
    requires !InBand(b, Count(v, kpts, width))
    requires Count(v, kpts, width) < b.kMin ==> low' == low && high' == width - 1
    requires Count(v, kpts, width) >= b.kMin ==> low' == width + 1 && high' == high
    ensures SearchInv(v, kpts, b, trials + [width], low', high')
  {
    var t := trials + [width];
    assert forall p :: 0 <= p < |trials| ==> t[p] == trials[p];
    assert t[|trials|] == width;
  }

  /** Stopping without a further trial meets the protocol. */
  lemma SearchStop(v: Variant, kpts: seq<KeyPoint>, b: Bracket, trials: seq<int>, low: int, high: int)
    requires SearchInv(v, kpts, b, trials, low, high)
    ensures Protocol(v, kpts, b, trials)
  {
  }

  /** Stopping after a trial inside the bracket meets the protocol. */
  lemma SearchDone(v: Variant, kpts: seq<KeyPoint>, b: Bracket, trials: seq<int>, low: int, high: int,
                   width: int)
    requires SearchInv(v, kpts, b, trials, low, high) && low <= width <= high
    ensures Protocol(v, kpts, b, trials + [width])
  {
    var t := trials + [width];
    assert forall p :: 0 <= p < |trials| ==> t[p] == trials[p];
    assert t[|trials|] == width;
  }

  /** One round of the search with a new width inside the bracket: the trial at the width, then
      either acceptance or the narrowed bracket. */
  method Probe(v: Variant, kpts: seq<KeyPoint>, b: Bracket, low: int, high: int, width: int,
               ghost prev: int, ghost prev0: int, ghost trials: seq<int>)
    returns (temp: seq<nat>, accepted: bool, low': int, high': int)
    requires Usable(b) && Ready(v, kpts) && SearchInv(v, kpts, b, trials, low, high)
    requires Tracks(v, kpts, b, trials, low, high, prev, prev0)
    requires low <= high && width == low + Half(high - low) && width != prev
    ensures temp == Trial(kpts, RuleAt(v, width), |kpts|) && IsSelection(temp, |kpts|)
    ensures accepted <==> InBand(b, |temp|)
    ensures accepted ==> Protocol(v, kpts, b, trials + [width])
    ensures accepted ==> Searched(v, kpts, b, prev0, trials + [width])
    ensures !accepted ==> SearchInv(v, kpts, b, trials + [width], low', high')
    ensures !accepted ==> Tracks(v, kpts, b, trials + [width], low', high', width, prev0)
    ensures !accepted ==> if |temp| < b.kMin then low' == low && high' == width - 1 else low' == width + 1 && high' == high
  {
    temp := RunTrial(v, kpts, width);
    low', high' := low, high;
    accepted := InBand(b, |temp|);
    if accepted {
      SearchDone(v, kpts, b, trials, low, high, width);
      TracksDone(v, kpts, b, trials, low, high, prev, prev0, width);
      return;
    }
    if |temp| < b.kMin {
      high' := width - 1;
    } else {
      low' := width + 1;
    }
    SearchStep(v, kpts, b, trials, low, high, width, low', high');
    TracksStep(v, kpts, b, trials, low, high, prev, prev0, width, low', high');
  }

  /** The search loop. Each round tries width = low + (high - low) / 2; it stops without a
      trial when the width repeats the previous one (prev0 before the first round) or the
      bracket is empty, and accepts a trial whose count lies in [kMin, kMax]; otherwise a count
      below kMin moves high below the width and a count above kMax moves low above it. The
      result is the last trial's selection, or nothing when no trial ran; trials lists the
      widths tried, in order. */
  method Bisect(v: Variant, kpts: seq<KeyPoint>, b: Bracket, prev0: int)
    returns (res: seq<nat>, accepted: bool, ghost trials: seq<int>)
    requires Usable(b) && Ready(v, kpts)
    ensures Searched(v, kpts, b, prev0, trials)
    ensures IsSelection(res, |kpts|)
    ensures trials == [] ==> res == [] && (FirstWidth(b) == prev0 || b.low > b.high)
    ensures FirstWidth(b) == prev0 ==> trials == []
    ensures trials != [] ==> res == Trial(kpts, RuleAt(v, trials[|trials| - 1]), |kpts|)
    ensures accepted <==> trials != [] && InBand(b, |res|)
    ensures Protocol(v, kpts, b, trials)
  {
    var low, high, prev := b.low, b.high, prev0;
    var temp: seq<nat> := [];
    trials := [];
    TracksStart(v, kpts, b, prev0);
    while true
      invariant SearchInv(v, kpts, b, trials, low, high)
      invariant trials == [] ==> temp == [] && low == b.low && high == b.high && prev == prev0
      invariant FirstWidth(b) == prev0 ==> trials == []
      invariant trials != [] ==> prev == trials[|trials| - 1] && temp == Trial(kpts, RuleAt(v, prev), |kpts|)
      invariant IsSelection(temp, |kpts|)
      invariant Tracks(v, kpts, b, trials, low, high, prev, prev0)
      decreases if low <= high then high - low + 1 else 0
    {
      var width := low + Half(high - low);
      if width == prev || low > high {
        res, accepted := temp, false;
        SearchStop(v, kpts, b, trials, low, high);
        TracksEnd(v, kpts, b, trials, low, high, prev, prev0);
        return;
      }
      var low', high';
      temp, accepted, low', high' := Probe(v, kpts, b, low, high, width, prev, prev0, trials);
      trials := trials + [width];
      if accepted {
        res := temp;
        return;
      }
      low, high, prev := low', high', width;
    }
  }

  /** The selection a search ends with: the last trial's, or nothing when no width was tried. */
  ghost function Selected(v: Variant, kpts: seq<KeyPoint>, b: Bracket, prev0: int): seq<nat> {
    var trials := Search(v, kpts, b, b.low, b.high, prev0);
    if trials == [] then [] else Trial(kpts, RuleAt(v, trials[|trials| - 1]), |kpts|)
  }

  /** A search that tried trials and kept the last trial's selection (nothing without a trial)
      kept exactly Selected. */
  lemma SelectedIs(v: Variant, kpts: seq<KeyPoint>, b: Bracket, prev0: int, trials: seq<int>, sel: seq<nat>)
    requires Searched(v, kpts, b, prev0, trials)
    requires trials == [] ==> sel == []
    requires trials != [] ==> sel == Trial(kpts, RuleAt(v, trials[|trials| - 1]), |kpts|)
    ensures trials == Search(v, kpts, b, b.low, b.high, prev0) && sel == Selected(v, kpts, b, prev0)
  {
    assert trials == Search(v, kpts, b, b.low, b.high, prev0);
  }

  /** A search followed by the copy loop: the kept points, in input order. */
  method Suppress(v: Variant, kpts: seq<KeyPoint>, b: Bracket, prev0: int)
    returns (r: seq<KeyPoint>, sel: seq<nat>, ghost trials: seq<int>)
    requires Usable(b) && Ready(v, kpts)
    ensures IsSelection(sel, |kpts|) && r == Gather(kpts, sel)
    ensures multiset(r) <= multiset(kpts)
    ensures trials == [] ==> r == [] && (FirstWidth(b) == prev0 || b.low > b.high)
    ensures FirstWidth(b) == prev0 ==> trials == []
    ensures trials != [] ==> sel == Trial(kpts, RuleAt(v, trials[|trials| - 1]), |kpts|)
    ensures forall p :: 0 <= p < |trials| ==> b.low <= trials[p] <= b.high
    ensures trials == Search(v, kpts, b, b.low, b.high, prev0)
    ensures sel == Selected(v, kpts, b, prev0)
  {
    var accepted;
    sel, accepted, trials := Bisect(v, kpts, b, prev0);
    SelectedIs(v, kpts, b, prev0, trials, sel);
    r := GatherKeypoints(kpts, sel);
    GatherSubMultiset(kpts, sel);
  }

  /** DistributeKeypointsKdT_ANMS: the search over radii, with neighbours found by a radius
      query around each kept point. prevradius starts at 1, so a first radius of 1 ends the
      search before any trial and keeps nothing. */
  method DistributeKdTree(kpts: seq<KeyPoint>, b: Bracket, inclusive: bool)
    returns (r: seq<KeyPoint>, sel: seq<nat>, ghost trials: seq<int>)
    requires Usable(b)
    ensures IsSelection(sel, |kpts|) && r == Gather(kpts, sel) && multiset(r) <= multiset(kpts)
    ensures FirstWidth(b) == 1 ==> r == [] && trials == []
    ensures trials == [] ==> r == []
    ensures trials != [] ==> sel == Trial(kpts, Disc(trials[|trials| - 1], inclusive), |kpts|)
    ensures trials == Search(KdTree(inclusive), kpts, b, b.low, b.high, 1)
    ensures sel == Selected(KdTree(inclusive), kpts, b, 1)
  {
    r, sel, trials := Suppress(KdTree(inclusive), kpts, b, 1);
  }

  /** DistributeKeypointsRT_ANMS: the search over half-widths, with neighbours found by a range
      query on the square around each kept point, clamped at 0. A non-empty bracket always
      runs at least one trial. */
  method DistributeRangeTree(kpts: seq<KeyPoint>, b: Bracket, inclusive: bool)
    returns (r: seq<KeyPoint>, sel: seq<nat>, ghost trials: seq<int>)
    requires Usable(b)
    ensures IsSelection(sel, |kpts|) && r == Gather(kpts, sel) && multiset(r) <= multiset(kpts)
    ensures b.low <= b.high ==> trials != []
    ensures trials != [] ==> sel == Trial(kpts, Square(trials[|trials| - 1], inclusive), |kpts|)
    ensures trials == Search(RangeTree(inclusive), kpts, b, b.low, b.high, -1)
    ensures sel == Selected(RangeTree(inclusive), kpts, b, -1)
  {
    r, sel, trials := Suppress(RangeTree(inclusive), kpts, b, -1);
  }

  /** DistributeKeypointsSSC on a cols x rows region whose points have coordinates in
      [0, cols] x [0, rows]: the search over widths with the boolean coverage grid. */
  method DistributeSsc(kpts: seq<KeyPoint>, rows: int, cols: int, b: Bracket)
    returns (r: seq<KeyPoint>, sel: seq<nat>, ghost trials: seq<int>)
    requires Usable(b) && rows >= 0 && cols >= 0
    requires forall k :: k in kpts ==> 0 <= k.x <= cols && 0 <= k.y <= rows
    ensures IsSelection(sel, |kpts|) && r == Gather(kpts, sel) && multiset(r) <= multiset(kpts)
    ensures b.low <= b.high ==> trials != []
    ensures trials != [] ==> sel == Trial(kpts, Cover(Frame(cols, rows, 0, 0), trials[|trials| - 1]), |kpts|)
    ensures trials == Search(Ssc(Frame(cols, rows, 0, 0)), kpts, b, b.low, b.high, -1)
    ensures sel == Selected(Ssc(Frame(cols, rows, 0, 0)), kpts, b, -1)
  {
    r, sel, trials := Suppress(Ssc(Frame(cols, rows, 0, 0)), kpts, b, -1);
  }

  /** The frame of DistributeKeypointsSoftSSC: a real region when maxX != -1, otherwise the
      flattened call (cols, -1, rows, -1) with coordinates taken from 0. */
  function SoftFrame(minX: int, maxX: int, minY: int, maxY: int): Frame {
    if maxX != -1 then Frame(maxX - minX, maxY - minY, minX, minY) else Frame(minX, minY, 0, 0)
  }

  /** DistributeKeypointsSoftSSC: the search over widths with the max-response coverage grid;
      a point is kept when its cell's value lies below its response plus the threshold. */
  method DistributeSoftSsc(kpts: seq<KeyPoint>, minX: int, maxX: int, minY: int, maxY: int,
                           b: Bracket, threshold: real)
    returns (r: seq<KeyPoint>, sel: seq<nat>, ghost trials: seq<int>)
    requires Usable(b)
    requires SoftFrame(minX, maxX, minY, maxY).cols >= 0 && SoftFrame(minX, maxX, minY, maxY).rows >= 0
    requires forall k :: k in kpts ==> InFrame(SoftFrame(minX, maxX, minY, maxY), k)
    ensures IsSelection(sel, |kpts|) && r == Gather(kpts, sel) && multiset(r) <= multiset(kpts)
    ensures b.low <= b.high ==> trials != []
    ensures trials != [] ==>
      sel == Trial(kpts, SoftCover(SoftFrame(minX, maxX, minY, maxY), trials[|trials| - 1], threshold), |kpts|)
    ensures trials == Search(SoftSsc(SoftFrame(minX, maxX, minY, maxY), threshold), kpts, b, b.low, b.high, -1)
    ensures sel == Selected(SoftSsc(SoftFrame(minX, maxX, minY, maxY), threshold), kpts, b, -1)
  {
    r, sel, trials := Suppress(SoftSsc(SoftFrame(minX, maxX, minY, maxY), threshold), kpts, b, -1);
  }
}
