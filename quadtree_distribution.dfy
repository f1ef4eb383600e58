/** The quadtree strategies end to end: Distribution::DistributeKeypointsQuadTree and
    Distribution::DistributeKeypointsQuadTree_ORBSLAMSTYLE in src/Distribution.cpp. The two
    share one body; the second only asserts that the input is not empty. */
module QuadTreeDistribution {
  import opened KeyPoints
  import opened ExtractorNodes
  import opened NodeLists
  import opened QuadTree
  import opened Subdivision

  /** The scan for the strongest point of a node: it starts at the first point and moves only
      to a strictly larger response, so it stops at the first point of maximal response. */
  method FirstMaxOf(s: seq<KeyPoint>) returns (m: nat)
    requires s != []
    ensures IsFirstMax(s, m)
  {
    m := 0;
    for j := 0 to |s|
      invariant m < |s| && m <= j
      invariant forall i :: 0 <= i < j ==> s[i].response <= s[m].response
      invariant forall i :: 0 <= i < m ==> s[i].response < s[m].response
    {
      if s[j].response > s[m].response {
        m := j;
      }
    }
  }

  /** The extraction loop: one point per listed node, front to back. A leaf gives its first
      point, any other node its first point of maximal response; because a leaf holds exactly
      one point, both branches pick the first strongest point of the node. */
  method Representatives(l: NodeList, ghost total: multiset<KeyPoint>)
    returns (res: seq<KeyPoint>, ghost picks: seq<nat>)
    requires Partitions(l, total)
    ensures |res| == |picks| == |l.order|
    ensures forall i :: 0 <= i < |res| ==>
      IsFirstMax(Cells(l)[i], picks[i]) && res[i] == Cells(l)[i][picks[i]]
  {
    res, picks := [], [];
    for p := 0 to |l.order|
      invariant |res| == |picks| == p
      invariant forall i :: 0 <= i < p ==>
        IsFirstMax(Cells(l)[i], picks[i]) && res[i] == Cells(l)[i][picks[i]]
    {
      var node := At(l, p);
      assert node.kpts == Cells(l)[p] && node.kpts != [];
      var m;
      if node.leaf {
        m := 0;
      } else {
        m := FirstMaxOf(node.kpts);
      }
      res, picks := res + [node.kpts[m]], picks + [m];
    }
  }

  /** One point picked from each cell is a sub-multiset of the union of the cells. */
  lemma {:induction false} PickSubMultiset(cells: seq<seq<KeyPoint>>, picks: seq<nat>, res: seq<KeyPoint>)
    requires |res| == |picks| == |cells|
    requires forall i :: 0 <= i < |res| ==> picks[i] < |cells[i]| && res[i] == cells[i][picks[i]]
    ensures multiset(res) <= Union(cells)
    decreases |res|
  {
    if res != [] {
      var n := |res| - 1;
      PickSubMultiset(cells[..n], picks[..n], res[..n]);
      assert res == res[..n] + [res[n]];
      assert res[n] in multiset(cells[n]);
    }
  }

  /** The node list of the strategy: the root strips seeded, pruned, then subdivided. */
  method Grow(kpts: seq<KeyPoint>, w: int, h: int, n: int)
    returns (l: NodeList, ghost passes: nat, ghost orders: seq<seq<nat>>)
    requires h > 0 && 2 * w >= h
    requires forall k :: k in kpts ==> 0 <= k.x < w
    ensures Subdivided(Pruned(Seeded(kpts, w, h)), n, passes, orders, l)
    ensures Partitions(l, multiset(kpts))
  {
    var roots, nroots := SeedRoots(kpts, w, h);
    l := PruneRoots(roots);
    l, passes, orders := Subdivide(l, n, multiset(kpts));
  }

  /** The extraction of a final list that partitions the input: one first strongest point per
      node, a sub-multiset of the input no longer than it. */
  method Extract(l: NodeList, kpts: seq<KeyPoint>)
    returns (r: seq<KeyPoint>, ghost cells: seq<seq<KeyPoint>>, ghost picks: seq<nat>)
    requires Partitions(l, multiset(kpts))
    ensures cells == Cells(l)
    ensures Union(cells) == multiset(kpts) && forall i :: 0 <= i < |cells| ==> cells[i] != []
    ensures |r| == |cells| == |picks| <= |kpts|
    ensures forall i :: 0 <= i < |r| ==> IsFirstMax(cells[i], picks[i]) && r[i] == cells[i][picks[i]]
    ensures multiset(r) <= multiset(kpts)
  {
    ghost var total := multiset(kpts);
    r, picks := Representatives(l, total);
    cells := Cells(l);
    PartitionsBound(l, total);
    forall i | 0 <= i < |cells| ensures cells[i] != [] {
      assert l.order[i] in l.order;
    }
    PickSubMultiset(cells, picks, r);
  }

  /** DistributeKeypointsQuadTree on a region of width maxX - minX and height maxY - minY,
      with the points' x given relative to minX: the final list is what the subdivision loop
      makes of the pruned root strips, its nodes partition the input, and the result holds,
      node by node, each node's first strongest point. */
  method DistributeQuadTree(kpts: seq<KeyPoint>, minX: int, maxX: int, minY: int, maxY: int, n: int)
    returns (r: seq<KeyPoint>, ghost cells: seq<seq<KeyPoint>>, ghost picks: seq<nat>,
             ghost final: NodeList, ghost passes: nat, ghost orders: seq<seq<nat>>)
    requires maxY - minY > 0 && 2 * (maxX - minX) >= maxY - minY
    requires forall k :: k in kpts ==> 0 <= k.x < maxX - minX
    ensures Subdivided(Pruned(Seeded(kpts, maxX - minX, maxY - minY)), n, passes, orders, final)
    ensures Valid(final) && cells == Cells(final)
    ensures Union(cells) == multiset(kpts) && forall i :: 0 <= i < |cells| ==> cells[i] != []
    ensures |r| == |cells| == |picks| <= |kpts|
    ensures forall i :: 0 <= i < |r| ==> IsFirstMax(cells[i], picks[i]) && r[i] == cells[i][picks[i]]
    ensures multiset(r) <= multiset(kpts)
  {
    var l;
    l, passes, orders := Grow(kpts, maxX - minX, maxY - minY, n);
    final := l;
    r, cells, picks := Extract(l, kpts);
  }

  /** DistributeKeypointsQuadTree_ORBSLAMSTYLE: the same strategy behind a non-empty-input
      assertion; a non-empty input always keeps at least one point. */
  method DistributeQuadTreeOrbSlam(kpts: seq<KeyPoint>, minX: int, maxX: int, minY: int, maxY: int, n: int)
    returns (r: seq<KeyPoint>, ghost cells: seq<seq<KeyPoint>>, ghost picks: seq<nat>,
             ghost final: NodeList, ghost passes: nat, ghost orders: seq<seq<nat>>)
    requires kpts != []
    requires maxY - minY > 0 && 2 * (maxX - minX) >= maxY - minY
    requires forall k :: k in kpts ==> 0 <= k.x < maxX - minX
    ensures Subdivided(Pruned(Seeded(kpts, maxX - minX, maxY - minY)), n, passes, orders, final)
    ensures Valid(final) && cells == Cells(final)
    ensures 1 <= |r| == |cells| == |picks| <= |kpts| && multiset(r) <= multiset(kpts)
    ensures forall i :: 0 <= i < |r| ==> IsFirstMax(cells[i], picks[i]) && r[i] == cells[i][picks[i]]
  {
    r, cells, picks, final, passes, orders := DistributeQuadTree(kpts, minX, maxX, minY, maxY, n);
  }
}
