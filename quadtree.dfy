/** The ORB-SLAM-style quadtree strategy of the distribution engine
    (Distribution::DistributeKeypointsQuadTree and its _ORBSLAMSTYLE twin in src/Distribution.cpp):
    vertical root strips, pruning, repeated four-way division until N nodes exist or nothing
    changes, then one strongest point per node. */
module QuadTree {
  import opened KeyPoints
  import opened ExtractorNodes
  import opened NodeLists
  import Sorting

  /** round((float)(maxX - minX) / (maxY - minY)) for a non-negative width w and a positive
      height h: the integer nearest to w / h, halves rounded up. */
  function RootCount(w: int, h: int): (n: int)
    requires w >= 0 && h > 0
    ensures h * (2 * n - 1) <= 2 * w < h * (2 * n + 1)
  {
    var n := (2 * w + h) / (2 * h);
    assert 2 * h * n <= 2 * w + h < 2 * h * n + 2 * h;
    n
  }

  /** x0 = nodeWidth * i with nodeWidth = w / nroots, truncated: the left edge of root i. */
  function RootEdge(w: int, nroots: int, i: int): int
    requires nroots > 0
  {
    (w * i) / nroots
  }

  /** rootVec[(int)(kpt.pt.x / nodeWidth)]: the root strip a point is appended to. */
  function RootOf(w: int, nroots: int): KeyPoint -> int
    requires w > 0
  {
    (k: KeyPoint) => (k.x * nroots) / w
  }

  /** A point with 0 <= x < w lands in one of the nroots strips, and inside the strip's
      x-range [RootEdge(i), RootEdge(i + 1)]. */
  lemma RootOfInRange(k: KeyPoint, w: int, nroots: int)
    requires w > 0 && nroots > 0 && 0 <= k.x < w
    ensures var i := RootOf(w, nroots)(k);
      0 <= i < nroots && RootEdge(w, nroots, i) <= k.x <= RootEdge(w, nroots, i + 1)
  {
    StripIndex(k.x, w, nroots);
    StripEdges(k.x, w, nroots);
  }

  /** The strip index x * n / w of a position 0 <= x < w lies in [0, n). */
  lemma StripIndex(x: int, w: int, n: int)
    requires w > 0 && n > 0 && 0 <= x < w
    ensures 0 <= (x * n) / w < n
  {
    var i := (x * n) / w;
    DivBounds(x * n, w);
    MulMono(n, 0, x);
    MulMono(n, x, w - 1);
    assert w * i < w * n;
    assert i < n by { MulCancelLess(w, i, n); }
    assert w * -1 < w * i by { MulCancelLess(w, -1, i); }
  }

  /** The position x lies between the edges of its strip. */
  lemma StripEdges(x: int, w: int, n: int)
    requires w > 0 && n > 0
    ensures var i := (x * n) / w; (w * i) / n <= x <= (w * (i + 1)) / n
  {
    var i := (x * n) / w;
    DivBounds(x * n, w);
    MulDivCancel(x, n);
    DivMono(w * i, x * n, n);
    DivMono(x * n, w * (i + 1), n);
  }

  lemma DivBounds(a: int, b: int)
    requires b > 0
    ensures b * (a / b) <= a < b * (a / b) + b
  {
  }

  lemma MulMono(a: int, b: int, c: int)
    requires a >= 0 && b <= c
    ensures a * b <= a * c && b * a <= c * a
  {
    assert a * (c - b) >= 0;
  }

  lemma MulCancelLess(a: int, b: int, c: int)
    requires a > 0 && a * b < a * c
    ensures b < c
  {
    if b >= c { MulMono(a, c, b); }
  }

  lemma MulDivCancel(x: int, n: int)
    requires n > 0
    ensures (x * n) / n == x
  {
    var q := (x * n) / n;
    DivBounds(x * n, n);
    assert n * (x + 1) == n * x + n && n * (x - 1) == n * x - n;
    MulCancelLess(n, x - 1, q);
    MulCancelLess(n, q, x + 1);
  }

  lemma DivMono(a: int, b: int, n: int)
    requires n > 0 && a <= b
    ensures a / n <= b / n
  {
    DivBounds(a, n);
    DivBounds(b, n);
    if a / n > b / n {
      MulMono(n, b / n + 1, a / n);
    }
  }

  /** Root strip i: the full height of the region, the x-range of the strip, the given points. */
  function Root(w: int, h: int, nroots: int, i: int, kpts: seq<KeyPoint>): Node
    requires nroots > 0
  {
    var x0, x1 := RootEdge(w, nroots, i), RootEdge(w, nroots, i + 1);
    Node(Point(x0, 0), Point(x1, 0), Point(x0, h), Point(x1, h), kpts, false)
  }

  /** The list the two root loops build: nroots strips, listed left to right, strip i holding
      the points whose strip index is i, in input order. */
  ghost function Seeded(kpts: seq<KeyPoint>, w: int, h: int): NodeList
    requires h > 0 && 2 * w >= h
  {
    var n := RootCount(w, h);
    NodeList(
      seq(n, i requires 0 <= i < n => Root(w, h, n, i, Bucket(kpts, RootOf(w, n), i))),
      seq(n, i => i))
  }

  /** The root-building loop and the point-assignment loop: root i holds, in input order,
      exactly the points whose strip is i, so the roots partition the input. */
  method SeedRoots(kpts: seq<KeyPoint>, w: int, h: int) returns (l: NodeList, nroots: int)
    requires h > 0 && 2 * w >= h
    requires forall k :: k in kpts ==> 0 <= k.x < w
    ensures nroots == RootCount(w, h) && nroots >= 1
    ensures Valid(l) && |l.arena| == nroots && |l.order| == nroots
    ensures forall i :: 0 <= i < nroots ==> l.order[i] == i
    ensures forall i :: 0 <= i < nroots ==>
      l.arena[i] == Root(w, h, nroots, i, Bucket(kpts, RootOf(w, nroots), i))
    ensures Union(Cells(l)) == multiset(kpts)
    ensures l == Seeded(kpts, w, h)
  {
    nroots := RootCount(w, h);
    l := MakeRoots(w, h, nroots);
    l := FillRoots(l, kpts, w, h, nroots);
    SeededRoots(kpts, w, h, l);
  }

  /** Roots that hold their strips' points are the seeded list, and hold every point once. */
  lemma SeededRoots(kpts: seq<KeyPoint>, w: int, h: int, l: NodeList)
    requires h > 0 && 2 * w >= h
    requires forall k :: k in kpts ==> 0 <= k.x < w
    requires var n := RootCount(w, h);
      && Valid(l) && |l.arena| == n && |l.order| == n
      && (forall i :: 0 <= i < n ==> l.order[i] == i)
      && (forall i :: 0 <= i < n ==> l.arena[i] == Root(w, h, n, i, Bucket(kpts, RootOf(w, n), i)))
    ensures Union(Cells(l)) == multiset(kpts) && l == Seeded(kpts, w, h)
  {
    var nroots := RootCount(w, h);
    var f := RootOf(w, nroots);
    assert Cells(l) == Buckets(kpts, f, nroots);
    UnionBuckets(kpts, f, nroots);
    forall k | k in kpts ensures 0 <= f(k) < nroots {
      RootOfInRange(k, w, nroots);
    }
    BucketsPartition(kpts, f, nroots);
    assert l.arena == Seeded(kpts, w, h).arena;
  }

  /** The root-building loop: nroots empty strips, pushed back left to right. */
  method MakeRoots(w: int, h: int, nroots: int) returns (l: NodeList)
    requires nroots > 0
    ensures Valid(l) && |l.arena| == nroots && |l.order| == nroots
    ensures forall i :: 0 <= i < nroots ==> l.order[i] == i
    ensures forall i :: 0 <= i < nroots ==> l.arena[i] == Root(w, h, nroots, i, [])
  {
    l := NodeList([], []);
    for i := 0 to nroots
      invariant Valid(l) && |l.arena| == i && |l.order| == i
      invariant forall j :: 0 <= j < i ==> l.order[j] == j
      invariant forall j :: 0 <= j < i ==> l.arena[j] == Root(w, h, nroots, j, [])
    {
      l := PushBack(l, Root(w, h, nroots, i, []));
    }
  }

  /** The point-assignment loop: each point is appended to the root of its strip. */
  method FillRoots(l0: NodeList, kpts: seq<KeyPoint>, w: int, h: int, nroots: int) returns (l: NodeList)
    requires w > 0 && nroots > 0
    requires forall k :: k in kpts ==> 0 <= k.x < w
    requires Valid(l0) && |l0.arena| == nroots && |l0.order| == nroots
    requires forall i :: 0 <= i < nroots ==> l0.order[i] == i
    requires forall i :: 0 <= i < nroots ==> l0.arena[i] == Root(w, h, nroots, i, [])
    ensures Valid(l) && |l.arena| == nroots && l.order == l0.order
    ensures forall i :: 0 <= i < nroots ==>
      l.arena[i] == Root(w, h, nroots, i, Bucket(kpts, RootOf(w, nroots), i))
  {
    l := l0;
    var f := RootOf(w, nroots);
    for j := 0 to |kpts|
      invariant Valid(l) && |l.arena| == nroots && l.order == l0.order
      invariant forall i :: 0 <= i < nroots ==> l.arena[i] == Root(w, h, nroots, i, Bucket(kpts[..j], f, i))
    {
      var k := kpts[j];
      RootOfInRange(k, w, nroots);
      var r := (k.x * nroots) / w;
      var root := l.arena[r];
      assert kpts[..j + 1][..j] == kpts[..j];
      l := Update(l, r, root.(kpts := root.kpts + [k]));
    }
    assert kpts[..|kpts|] == kpts;
  }

  /** The ids of s whose nodes hold a point, in order: the list the pruning walk leaves. */
  ghost function NonEmptyIds(l: NodeList, s: seq<nat>): seq<nat>
    decreases |s|
  {
    if s == [] then []
    else (if s[0] < |l.arena| && l.arena[s[0]].kpts != [] then [s[0]] else []) + NonEmptyIds(l, s[1..])
  }

  lemma {:induction false} NonEmptyAppend(l: NodeList, a: seq<nat>, b: seq<nat>)
    ensures NonEmptyIds(l, a + b) == NonEmptyIds(l, a) + NonEmptyIds(l, b)
    decreases |a|
  {
    if a != [] {
      assert (a + b)[0] == a[0] && (a + b)[1..] == a[1..] + b;
      NonEmptyAppend(l, a[1..], b);
    } else {
      assert a + b == b;
    }
  }

  /** Filtering ids that all hold points keeps them all. */
  lemma {:induction false} NonEmptyAll(l: NodeList, s: seq<nat>)
    requires forall p :: 0 <= p < |s| ==> s[p] < |l.arena| && l.arena[s[p]].kpts != []
    ensures NonEmptyIds(l, s) == s
    decreases |s|
  {
    if s != [] {
      NonEmptyAll(l, s[1..]);
    }
  }

  /** Cutting out an empty node does not change the filtered list. */
  lemma NonEmptyErase(l: NodeList, s: seq<nat>, p: nat)
    requires p < |s| && s[p] < |l.arena| && l.arena[s[p]].kpts == []
    ensures NonEmptyIds(l, s[..p] + s[p + 1..]) == NonEmptyIds(l, s)
  {
    assert s == s[..p] + ([s[p]] + s[p + 1..]);
    NonEmptyAppend(l, s[..p], [s[p]] + s[p + 1..]);
    NonEmptyAppend(l, s[..p], s[p + 1..]);
    assert NonEmptyIds(l, [s[p]] + s[p + 1..]) == NonEmptyIds(l, s[p + 1..]) by {
      assert ([s[p]] + s[p + 1..])[1..] == s[p + 1..];
    }
  }

  /** The list the pruning walk leaves of l: the non-empty nodes in their order, each listed node
      with a single point flagged leaf, every other arena node as it was. */
  ghost function Pruned(l: NodeList): NodeList {
    NodeList(
      seq(|l.arena|, i requires 0 <= i < |l.arena| =>
        if i in l.order && |l.arena[i].kpts| == 1 then l.arena[i].(leaf := true) else l.arena[i]),
      NonEmptyIds(l, l.order))
  }

  /** What the pruning walk has established once it reaches list position pos: the nodes
      before pos are non-empty and flagged leaf exactly when they hold one point, the nodes
      from pos on are not yet flagged, only empty roots have left the list, and no point has
      moved. */
  ghost predicate WalkInv(l: NodeList, r: NodeList, pos: nat) {
    && Valid(l) && Valid(r) && pos <= |r.order| && Contents(r) == Contents(l)
    && (forall p :: 0 <= p < pos ==> At(r, p).kpts != [])
    && (forall p :: 0 <= p < pos ==> (At(r, p).leaf <==> |At(r, p).kpts| == 1))
    && (forall p :: pos <= p < |r.order| ==> !At(r, p).leaf)
    && (forall id :: id in r.order ==> id in l.order)
    && (forall id :: id in l.order && id < |l.arena| && l.arena[id].kpts != [] ==> id in r.order)
    && Union(Cells(r)) == Union(Cells(l))
  }

  /** What the pruning walk keeps of the list's shape up to list position pos: the filtered
      list is unchanged, and only the leaf flags of the nodes before pos may have changed. */
  ghost predicate PruneShape(l: NodeList, r: NodeList, pos: nat) {
    && pos <= |r.order|
    && NonEmptyIds(l, r.order) == NonEmptyIds(l, l.order)
    && |r.arena| == |l.arena|
    && (forall i :: 0 <= i < |l.arena| ==> r.arena[i] == l.arena[i].(leaf := r.arena[i].leaf))
    && (forall i :: 0 <= i < |l.arena| && i !in r.order[..pos] ==> r.arena[i].leaf == l.arena[i].leaf)
  }

  /** Flagging the node at pos as a leaf keeps the shape one position further on. */
  lemma ShapeLeaf(l: NodeList, r: NodeList, r': NodeList, pos: nat)
    requires PruneShape(l, r, pos) && pos < |r.order| && r.order[pos] < |r.arena|
    requires r'.order == r.order && r'.arena == r.arena[r.order[pos] := r.arena[r.order[pos]].(leaf := true)]
    ensures PruneShape(l, r', pos + 1)
  {
    assert r.order[..pos + 1] == r.order[..pos] + [r.order[pos]];
  }

  /** Erasing an empty node at pos keeps the shape at pos. */
  lemma ShapeErase(l: NodeList, r: NodeList, r': NodeList, pos: nat)
    requires PruneShape(l, r, pos) && pos < |r.order| && r.order[pos] < |l.arena| && l.arena[r.order[pos]].kpts == []
    requires r'.arena == r.arena && r'.order == r.order[..pos] + r.order[pos + 1..]
    ensures PruneShape(l, r', pos)
  {
    NonEmptyErase(l, r.order, pos);
    assert r'.order[..pos] == r.order[..pos];
  }

  /** Passing over the node at pos keeps the shape one position further on. */
  lemma ShapeSkip(l: NodeList, r: NodeList, pos: nat)
    requires PruneShape(l, r, pos) && pos < |r.order|
    ensures PruneShape(l, r, pos + 1)
  {
    assert r.order[..pos + 1] == r.order[..pos] + [r.order[pos]];
  }

  /** One step of the pruning walk at list position pos: a single-point node becomes a leaf and
      the walk moves on, an empty node is erased, any other node is passed over. */
  method PruneStep(ghost l: NodeList, r: NodeList, pos: nat) returns (r': NodeList, pos': nat)
    requires WalkInv(l, r, pos) && PruneShape(l, r, pos) && pos < |r.order|
    ensures WalkInv(l, r', pos') && PruneShape(l, r', pos')
    ensures |r'.order| - pos' < |r.order| - pos
  {
    var node := At(r, pos);
    if |node.kpts| == 1 {
      r', pos' := MarkLeaf(l, r, pos);
    } else if node.kpts == [] {
      r', pos' := EraseEmpty(l, r, pos);
      ShapeErase(l, r, r', pos);
    } else {
      r', pos' := r, pos + 1;
      ShapeSkip(l, r, pos);
    }
  }

  /** The leaf branch of PruneStep. */
  method MarkLeaf(ghost l: NodeList, r: NodeList, pos: nat) returns (r': NodeList, pos': nat)
    requires WalkInv(l, r, pos) && PruneShape(l, r, pos) && pos < |r.order| && |At(r, pos).kpts| == 1
    ensures WalkInv(l, r', pos') && PruneShape(l, r', pos')
    ensures pos' == pos + 1 && |r'.order| == |r.order|
  {
    r' := SetLeaf(r, pos);
    pos' := pos + 1;
    WalkLeaf(l, r, r', pos);
    ShapeLeaf(l, r, r', pos);
  }

  /** Flagging the single-point node at pos as a leaf moves the walk one position on. */
  lemma WalkLeaf(l: NodeList, r: NodeList, r': NodeList, pos: nat)
    requires WalkInv(l, r, pos) && pos < |r.order| && |At(r, pos).kpts| == 1
    requires Valid(r') && r'.order == r.order && Cells(r') == Cells(r) && Contents(r') == Contents(r)
    requires At(r', pos) == At(r, pos).(leaf := true)
    requires forall q :: 0 <= q < |r.order| && q != pos ==> At(r', q) == At(r, q)
    ensures WalkInv(l, r', pos + 1)
  {
  }

  /** The erasing branch of PruneStep. */
  method EraseEmpty(ghost l: NodeList, r: NodeList, pos: nat) returns (r': NodeList, pos': nat)
    requires WalkInv(l, r, pos) && pos < |r.order| && At(r, pos).kpts == []
    ensures WalkInv(l, r', pos') && pos' == pos && |r'.order| == |r.order| - 1
    ensures r.order[pos] < |l.arena| && l.arena[r.order[pos]].kpts == []
    ensures r'.arena == r.arena && r'.order == r.order[..pos] + r.order[pos + 1..]
  {
    var gone := r.order[pos];
    assert Contents(r)[gone] == Contents(l)[gone];
    assert l.arena[gone].kpts == [];
    r' := EraseAt(r, pos);
    pos' := pos;
    assert forall p :: pos <= p < |r'.order| ==> At(r', p) == At(r, p + 1);
    assert multiset(At(r, pos).kpts) == multiset{};
    assert Union(Cells(r')) == Union(Cells(r));
    assert forall id :: id in r'.order ==> id in r.order;
    assert forall p :: 0 <= p < pos ==> At(r', p) == At(r, p);
  }

  /** The position-wise facts of a list, restated per listed id. */
  lemma LeafFlagsById(l: NodeList)
    requires Valid(l)
    requires forall p :: 0 <= p < |l.order| ==> At(l, p).kpts != []
    requires forall p :: 0 <= p < |l.order| ==> (At(l, p).leaf <==> |At(l, p).kpts| == 1)
    ensures forall id :: id in l.order ==> l.arena[id].kpts != []
    ensures forall id :: id in l.order ==> (l.arena[id].leaf <==> |l.arena[id].kpts| == 1)
  {
    forall id | id in l.order
      ensures l.arena[id].kpts != [] && (l.arena[id].leaf <==> |l.arena[id].kpts| == 1)
    {
      var p :| 0 <= p < |l.order| && l.order[p] == id;
      assert At(l, p) == l.arena[id];
    }
  }

  /** The pruning walk over the roots: an empty root is erased, a root with a single point is
      marked leaf, the rest stay; afterwards the list partitions the same points and exactly
      the non-empty roots remain. */
  method PruneRoots(l: NodeList) returns (r: NodeList)
    requires Valid(l)
    requires forall id :: id in l.order ==> !l.arena[id].leaf
    ensures Partitions(r, Union(Cells(l)))
    ensures forall id :: id in r.order <==> id in l.order && l.arena[id].kpts != []
    ensures forall id :: id in r.order ==> r.arena[id].kpts == l.arena[id].kpts
    ensures forall id :: id in r.order ==> (r.arena[id].leaf <==> |r.arena[id].kpts| == 1)
    ensures r == Pruned(l)
  {
    r := PruneWalk(l);
    LeafFlagsById(r);
    forall id | id in r.order ensures r.arena[id].kpts == l.arena[id].kpts {
      assert Contents(r)[id] == Contents(l)[id];
    }
  }

  /** The loop of PruneRoots, with its result stated position by position. */
  method PruneWalk(l: NodeList) returns (r: NodeList)
    requires Valid(l)
    requires forall id :: id in l.order ==> !l.arena[id].leaf
    ensures Valid(r) && Contents(r) == Contents(l) && Union(Cells(r)) == Union(Cells(l))
    ensures forall p :: 0 <= p < |r.order| ==> At(r, p).kpts != []
    ensures forall p :: 0 <= p < |r.order| ==> (At(r, p).leaf <==> |At(r, p).kpts| == 1)
    ensures forall id :: id in r.order <==> id in l.order && l.arena[id].kpts != []
    ensures r == Pruned(l)
  {
    r := l;
    var pos: nat := 0;
    while pos < |r.order|
      invariant WalkInv(l, r, pos) && PruneShape(l, r, pos)
      decreases |r.order| - pos
    {
      r, pos := PruneStep(l, r, pos);
    }
    PrunedResult(l, r);
    forall id | id in r.order ensures l.arena[id].kpts != [] {
      var p :| 0 <= p < |r.order| && r.order[p] == id;
      assert At(r, p).kpts != [] && At(r, p) == r.arena[id];
      assert Contents(r)[id] == Contents(l)[id];
    }
  }

  /** A finished walk leaves exactly Pruned(l). */
  lemma PrunedResult(l: NodeList, r: NodeList)
    requires WalkInv(l, r, |r.order|) && PruneShape(l, r, |r.order|)
    requires forall id :: id in l.order ==> !l.arena[id].leaf
    ensures r == Pruned(l)
  {
    PrunedOrder(l, r);
    assert r.order[..|r.order|] == r.order;
    forall i | 0 <= i < |l.arena| ensures r.arena[i] == Pruned(l).arena[i] {
      PrunedNode(l, r, i);
    }
  }

  lemma PrunedOrder(l: NodeList, r: NodeList)
    requires WalkInv(l, r, |r.order|) && PruneShape(l, r, |r.order|)
    ensures r.order == NonEmptyIds(l, l.order)
  {
    forall p | 0 <= p < |r.order| ensures r.order[p] < |l.arena| && l.arena[r.order[p]].kpts != [] {
      assert At(r, p).kpts != [] && At(r, p) == r.arena[r.order[p]];
      assert Contents(r)[r.order[p]] == Contents(l)[r.order[p]];
    }
    NonEmptyAll(l, r.order);
  }

  lemma PrunedNode(l: NodeList, r: NodeList, i: nat)
    requires WalkInv(l, r, |r.order|) && PruneShape(l, r, |r.order|) && r.order[..|r.order|] == r.order
    requires forall id :: id in l.order ==> !l.arena[id].leaf
    requires i < |l.arena|
    ensures r.arena[i] == Pruned(l).arena[i]
  {
    if i in r.order {
      var p :| 0 <= p < |r.order| && r.order[p] == i;
      assert At(r, p) == r.arena[i];
      assert Contents(r)[i] == Contents(l)[i];
    }
  }
}
