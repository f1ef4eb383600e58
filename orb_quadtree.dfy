/** ORBextractor::DistributeKeypoints in src/ORBextractor.cpp: the older quadtree. Vertical root
    strips of a rounded width, then whole passes over the node list in which every node is
    divided, until one division leaves the list as long as it was when the pass began or N
    nodes exist; then the strongest point of every node. */
module OrbQuadTree {
  import opened KeyPoints
  import opened ExtractorNodes
  import OrbExtractor
  import Ranms
  import Coverage

  datatype Option<T> = None | Some(value: T)

  /** nroots = cvRound((maxX - minX) / (maxY - minY)): the division is between ints, so the
      quotient is already whole and cvRound keeps it. */
  function RootCount(w: int, h: int): (n: int)
    requires w >= 0 && h >= 1
    ensures h * n <= w < h * n + h
    ensures w >= h ==> 1 <= n <= w
  {
    if w >= h then QuotientPositive(w, h); w / h else w / h
  }

  /** a >= b >= 1 gives 1 <= a / b <= a. */
  lemma QuotientPositive(a: int, b: int)
    requires a >= b >= 1
    ensures 1 <= a / b <= a
  {
    assert a == b * (a / b) + a % b;
    Coverage.MulLe(a / b, 1, b);
  }

  /** cvRound((float)a / b) for b >= 1: the nearest integer to a / b, a tie going to the even
      neighbour, and at least 1 once a >= b. */
  function RoundDiv(a: int, b: int): (r: int)
    requires b >= 1
    ensures -b <= 2 * (a - b * r) <= b
    ensures (2 * (a - b * r) == b || 2 * (a - b * r) == -b) ==> r % 2 == 0
    ensures a >= b ==> r >= 1
  {
    var q, m := a / b, a % b;
    assert a == b * q + m && b * (q + 1) == b * q + b;
    assert a >= b ==> q >= 1 by {
      if a >= b { QuotientPositive(a, b); }
    }
    if 2 * m < b then q
    else if 2 * m > b then q + 1
    else if q % 2 == 0 then q else q + 1
  }

  /** rootVec[(int)(kpt.pt.x / nodeWidth)] as written: the truncated quotient, for x >= 0. */
  function AsWrittenRoot(x: int, nodeWidth: int): int
    requires nodeWidth >= 1
  {
    x / nodeWidth
  }

  /** The as-written index stays below nroots for every x of the frame exactly when the rounded
      strips cover the frame, nodeWidth * nroots >= w. Rounding to nearest can make the strips
      narrower than that. */
  lemma AsWrittenCovers(w: int, nroots: int, nodeWidth: int)
    requires w >= 1 && nroots >= 1 && nodeWidth >= 1
    ensures (forall x :: 0 <= x < w ==> AsWrittenRoot(x, nodeWidth) < nroots) <==> nodeWidth * nroots >= w
  {
    if nodeWidth * nroots >= w {
      forall x | 0 <= x < w ensures AsWrittenRoot(x, nodeWidth) < nroots {
        Ranms.Below(x, nodeWidth, nroots);
      }
    } else {
      var x := w - 1;
      var q := x / nodeWidth;
      assert x == nodeWidth * q + x % nodeWidth && nodeWidth * (q + 1) == nodeWidth * q + nodeWidth;
      if q < nroots {
        Coverage.MulLe(nodeWidth, q + 1, nroots);
        assert false;
      }
      assert AsWrittenRoot(x, nodeWidth) >= nroots;
    }
  }

  /** A 13 by 3 frame has four roots of rounded width cvRound(3.25) = 3, which cover x < 12
      only: the point at x = 12 is filed under rootVec[4], one past the last root. */
  lemma AsWrittenRootOverflows()
    ensures RootCount(13, 3) == 4 && RoundDiv(13, 4) == 3
    ensures AsWrittenRoot(12, RoundDiv(13, 4)) == RootCount(13, 3)
  {
  }

  /** The root a point is filed under, with the overflow of the rounded strips sent to the last
      root instead of past the end of rootVec. */
  function RootOf(nroots: int, nodeWidth: int): KeyPoint -> int
    requires nodeWidth >= 1
  {
    (k: KeyPoint) => OrbExtractor.Min(k.x / nodeWidth, nroots - 1)
  }

  /** Every point with x >= 0 lands in one of the roots, and in the same root as the
      as-written index wherever that one is inside rootVec. */
  lemma RootOfInRange(k: KeyPoint, nroots: int, nodeWidth: int)
    requires nroots >= 1 && nodeWidth >= 1 && k.x >= 0
    ensures 0 <= RootOf(nroots, nodeWidth)(k) < nroots
    ensures AsWrittenRoot(k.x, nodeWidth) < nroots ==> RootOf(nroots, nodeWidth)(k) == AsWrittenRoot(k.x, nodeWidth)
  {
    assert k.x == nodeWidth * (k.x / nodeWidth) + k.x % nodeWidth;
    if k.x / nodeWidth < 0 {
      Coverage.MulLe(nodeWidth, k.x / nodeWidth, -1);
    }
  }

  /** Root i as the root loop builds it: x from minX + nodeWidth * i to
      minX + nodeWidth * (i + 1), y from minY to maxY, holding the given points. */
  function Root(minX: int, minY: int, maxY: int, nodeWidth: int, i: int, kpts: seq<KeyPoint>): Node {
    var x0, x1 := minX + nodeWidth * i, minX + nodeWidth * (i + 1);
    Node(Point(x0, minY), Point(x1, minY), Point(x0, maxY), Point(x1, maxY), kpts, false)
  }

  /** The points of each node of a list, front to back. */
  ghost function Cells(nodes: seq<Node>): seq<seq<KeyPoint>> {
    seq(|nodes|, p requires 0 <= p < |nodes| => nodes[p].kpts)
  }

  /** Every node of the list holds a point. */
  ghost predicate Filled(nodes: seq<Node>) {
    forall p :: 0 <= p < |nodes| ==> nodes[p].kpts != []
  }

  /** No node of the list is flagged leaf. */
  ghost predicate NoLeaf(nodes: seq<Node>) {
    forall p :: 0 <= p < |nodes| ==> !nodes[p].leaf
  }

  /** The roots the two root loops build: nroots strips of the rounded width, left to right,
      root i holding the points filed under i, in input order. */
  ghost function Seeded(kpts: seq<KeyPoint>, minX: int, maxX: int, minY: int, maxY: int): seq<Node>
    requires maxY - minY >= 1 && maxX - minX >= maxY - minY
  {
    var nroots := RootCount(maxX - minX, maxY - minY);
    var nodeWidth := RoundDiv(maxX - minX, nroots);
    seq(nroots, i requires 0 <= i < nroots =>
      Root(minX, minY, maxY, nodeWidth, i, Bucket(kpts, RootOf(nroots, nodeWidth), i)))
  }

  /** The root loop and the filing loop: root i holds, in input order, the points filed under i,
      so the roots hold every point exactly once. */
  method SeedRoots(kpts: seq<KeyPoint>, minX: int, maxX: int, minY: int, maxY: int)
    returns (roots: seq<Node>, nroots: int, nodeWidth: int)
    requires maxY - minY >= 1 && maxX - minX >= maxY - minY
    requires forall k :: k in kpts ==> k.x >= 0
    ensures nroots == RootCount(maxX - minX, maxY - minY) && nroots >= 1
    ensures nodeWidth == RoundDiv(maxX - minX, nroots) && nodeWidth >= 1
    ensures |roots| == nroots
    ensures forall i :: 0 <= i < nroots ==>
      roots[i] == Root(minX, minY, maxY, nodeWidth, i, Bucket(kpts, RootOf(nroots, nodeWidth), i))
    ensures Union(Cells(roots)) == multiset(kpts)
    ensures roots == Seeded(kpts, minX, maxX, minY, maxY)
  {
    nroots := RootCount(maxX - minX, maxY - minY);
    nodeWidth := RoundDiv(maxX - minX, nroots);
    roots := MakeRoots(minX, minY, maxY, nodeWidth, nroots);
    roots := FileRoots(roots, kpts, minX, minY, maxY, nodeWidth, nroots);
    RootsHoldAll(roots, kpts, minX, minY, maxY, nodeWidth, nroots);
  }

  /** Roots that hold the buckets of every root index hold every point exactly once. */
  lemma RootsHoldAll(roots: seq<Node>, kpts: seq<KeyPoint>, minX: int, minY: int, maxY: int,
                     nodeWidth: int, nroots: int)
    requires nroots >= 1 && nodeWidth >= 1 && |roots| == nroots
    requires forall k :: k in kpts ==> k.x >= 0
    requires forall i :: 0 <= i < nroots ==>
      roots[i] == Root(minX, minY, maxY, nodeWidth, i, Bucket(kpts, RootOf(nroots, nodeWidth), i))
    ensures Union(Cells(roots)) == multiset(kpts)
  {
    var f := RootOf(nroots, nodeWidth);
    assert Cells(roots) == Buckets(kpts, f, nroots);
    UnionBuckets(kpts, f, nroots);
    forall k | k in kpts ensures 0 <= f(k) < nroots {
      RootOfInRange(k, nroots, nodeWidth);
    }
    BucketsPartition(kpts, f, nroots);
  }

  /** The root loop: nroots empty strips, pushed back left to right. */
  method MakeRoots(minX: int, minY: int, maxY: int, nodeWidth: int, nroots: int) returns (roots: seq<Node>)
    requires nroots >= 0
    ensures |roots| == nroots
    ensures forall i :: 0 <= i < nroots ==> roots[i] == Root(minX, minY, maxY, nodeWidth, i, [])
  {
    roots := [];
    for i := 0 to nroots
      invariant |roots| == i
      invariant forall j :: 0 <= j < i ==> roots[j] == Root(minX, minY, maxY, nodeWidth, j, [])
    {
      roots := roots + [Root(minX, minY, maxY, nodeWidth, i, [])];
    }
  }

  /** The filing loop: each point is appended to the points of its root. */
  method FileRoots(roots0: seq<Node>, kpts: seq<KeyPoint>, minX: int, minY: int, maxY: int, nodeWidth: int, nroots: int)
    returns (roots: seq<Node>)
    requires nroots >= 1 && nodeWidth >= 1 && |roots0| == nroots
    requires forall i :: 0 <= i < nroots ==> roots0[i] == Root(minX, minY, maxY, nodeWidth, i, [])
    requires forall k :: k in kpts ==> k.x >= 0
    ensures |roots| == nroots
    ensures forall i :: 0 <= i < nroots ==>
      roots[i] == Root(minX, minY, maxY, nodeWidth, i, Bucket(kpts, RootOf(nroots, nodeWidth), i))
  {
    roots := roots0;
    var f := RootOf(nroots, nodeWidth);
    for j := 0 to |kpts|
      invariant |roots| == nroots
      invariant forall i :: 0 <= i < nroots ==>
        roots[i] == Root(minX, minY, maxY, nodeWidth, i, Bucket(kpts[..j], f, i))
    {
      var k := kpts[j];
      RootOfInRange(k, nroots, nodeWidth);
      var r := OrbExtractor.Min(k.x / nodeWidth, nroots - 1);
      FiledOnce(kpts, j, f, r);
      roots := roots[r := roots[r].(kpts := roots[r].kpts + [k])];
    }
    assert kpts[..|kpts|] == kpts;
  }

  /** Filing point j appends it to bucket r and leaves every other bucket as it was. */
  lemma FiledOnce(kpts: seq<KeyPoint>, j: nat, f: KeyPoint -> int, r: int)
    requires j < |kpts| && f(kpts[j]) == r
    ensures Bucket(kpts[..j + 1], f, r) == Bucket(kpts[..j], f, r) + [kpts[j]]
    ensures forall i :: i != r ==> Bucket(kpts[..j + 1], f, i) == Bucket(kpts[..j], f, i)
  {
    assert kpts[..j + 1][..j] == kpts[..j];
  }

  /** The list of children the four push_front blocks leave in front of the list: the
      non-empty ones among n1 .. n4, the last pushed first. */
  function Pushed(n1: Node, n2: Node, n3: Node, n4: Node): seq<Node> {
    Keep(n4) + (Keep(n3) + (Keep(n2) + Keep(n1)))
  }

  /** The children DivideNode makes of a node, as the four push_front blocks leave them. */
  function PushedKids(node: Node): seq<Node> {
    var c := Children(node);
    Pushed(c[0], c[1], c[2], c[3])
  }

  /** The pushed children of every node of a list, in list order. */
  ghost function KidsOf(nodes: seq<Node>): (r: seq<seq<Node>>)
    ensures |r| == |nodes|
    decreases |nodes|
  {
    if nodes == [] then [] else [PushedKids(nodes[0])] + KidsOf(nodes[1..])
  }

  lemma {:induction false} KidsOfAt(nodes: seq<Node>, j: nat)
    requires j < |nodes|
    ensures KidsOf(nodes)[j] == PushedKids(nodes[j])
    decreases j
  {
    if j > 0 {
      KidsOfAt(nodes[1..], j - 1);
    }
  }

  function Keep(c: Node): seq<Node> {
    if c.kpts == [] then [] else [c]
  }

  lemma CellsAppend(a: seq<Node>, b: seq<Node>)
    ensures Cells(a + b) == Cells(a) + Cells(b)
  {
  }

  lemma KeepPoints(c: Node)
    ensures Union(Cells(Keep(c))) == multiset(c.kpts)
  {
    if c.kpts != [] {
      assert Cells(Keep(c)) == [c.kpts];
      assert Cells(Keep(c))[..0] == [];
    }
  }

  /** The pushed children hold exactly the points of the four children. */
  lemma PushedPoints(n1: Node, n2: Node, n3: Node, n4: Node)
    ensures Union(Cells(Pushed(n1, n2, n3, n4))) ==
      multiset(n1.kpts) + multiset(n2.kpts) + multiset(n3.kpts) + multiset(n4.kpts)
  {
    var a, b, c, d := Keep(n4), Keep(n3), Keep(n2), Keep(n1);
    CellsAppend(a, b + (c + d));
    CellsAppend(b, c + d);
    CellsAppend(c, d);
    UnionAppend(Cells(a), Cells(b + (c + d)));
    UnionAppend(Cells(b), Cells(c + d));
    UnionAppend(Cells(c), Cells(d));
    KeepPoints(n1);
    KeepPoints(n2);
    KeepPoints(n3);
    KeepPoints(n4);
  }

  /** current->DivideNode(n1, n2, n3, n4), the four push_front blocks and
      current = nodesList.erase(current), for the node at list position cur. The blocks set
      the leaf flag of a one-point child on the local copy after pushing it, so every pushed
      node keeps leaf == false. */
  method SplitAt(list: seq<Node>, cur: nat) returns (list': seq<Node>, kids: seq<Node>)
    requires cur < |list|
    ensures list' == kids + list[..cur] + list[cur + 1..] && kids == PushedKids(list[cur])
    ensures Union(Cells(kids)) == multiset(list[cur].kpts)
    ensures Filled(kids) && NoLeaf(kids) && |kids| <= 4
    ensures list[cur].kpts != [] ==> |kids| >= 1
  {
    var n1, n2, n3, n4 := DivideNode(list[cur]);
    var l, pos := list, cur;
    l, pos := PushFront(l, pos, n1, [], list, cur);
    l, pos := PushFront(l, pos, n2, Keep(n1), list, cur);
    l, pos := PushFront(l, pos, n3, Keep(n2) + Keep(n1), list, cur);
    l, pos := PushFront(l, pos, n4, Keep(n3) + (Keep(n2) + Keep(n1)), list, cur);
    kids := Pushed(n1, n2, n3, n4);
    assert l == kids + list && pos == |kids| + cur;
    list' := l[..pos] + l[pos + 1..];
    EraseAt(l, pos, kids, list, cur);
    PushedPoints(n1, n2, n3, n4);
    PushedFacts(n1, n2, n3, n4);
  }

  /** One `if (!nX.nodeKpts.empty()) nodesList.push_front(nX);` block; pos follows the current
      node. When the list is the nodes pushed so far in front of the original list, it stays so. */
  method PushFront(l: seq<Node>, pos: nat, c: Node, ghost front: seq<Node>, ghost base: seq<Node>,
                   ghost cur: nat)
    returns (l': seq<Node>, pos': nat)
    ensures l' == Keep(c) + l && pos' == pos + |Keep(c)|
    ensures l == front + base && pos == |front| + cur ==>
      l' == Keep(c) + front + base && pos' == |Keep(c) + front| + cur
  {
    if c.kpts != [] {
      l', pos' := [c] + l, pos + 1;
    } else {
      l', pos' := l, pos;
    }
  }

  /** Erasing the current node behind the pushed children. */
  lemma EraseAt(l: seq<Node>, pos: nat, front: seq<Node>, base: seq<Node>, cur: nat)
    requires l == front + base && pos == |front| + cur && cur < |base|
    ensures l[..pos] + l[pos + 1..] == front + base[..cur] + base[cur + 1..]
  {
    assert l[..pos] == front + base[..cur];
    assert l[pos + 1..] == base[cur + 1..];
  }

  /** The pushed children are non-empty non-leaves, at most four, and at least one when the
      divided node held a point. */
  lemma PushedFacts(n1: Node, n2: Node, n3: Node, n4: Node)
    requires !n1.leaf && !n2.leaf && !n3.leaf && !n4.leaf
    ensures var kids := Pushed(n1, n2, n3, n4);
      Filled(kids) && NoLeaf(kids) && |kids| <= 4
    ensures |n1.kpts| + |n2.kpts| + |n3.kpts| + |n4.kpts| > 0 ==> |Pushed(n1, n2, n3, n4)| >= 1
  {
    KeepFacts(n1);
    KeepFacts(n2);
    KeepFacts(n3);
    KeepFacts(n4);
    AppendFacts(Keep(n2), Keep(n1));
    AppendFacts(Keep(n3), Keep(n2) + Keep(n1));
    AppendFacts(Keep(n4), Keep(n3) + (Keep(n2) + Keep(n1)));
  }

  /** A kept child is non-empty, and a node that holds points is kept. */
  lemma KeepFacts(c: Node)
    ensures Filled(Keep(c)) && (!c.leaf ==> NoLeaf(Keep(c)))
    ensures |Keep(c)| <= 1 && (c.kpts != [] ==> |Keep(c)| == 1)
  {
  }

  /** Non-empty, non-leaf nodes stay so when two lists are concatenated. */
  lemma AppendFacts(a: seq<Node>, b: seq<Node>)
    ensures Filled(a) && Filled(b) ==> Filled(a + b)
    ensures NoLeaf(a) && NoLeaf(b) ==> NoLeaf(a + b)
  {
    assert forall p :: |a| <= p < |a + b| ==> (a + b)[p] == b[p - |a|];
  }

  /** Replacing the node x between a and b by kids that hold the same points keeps the points
      of the list. */
  lemma Replace(l: seq<Node>, l': seq<Node>, a: seq<Node>, x: Node, b: seq<Node>, kids: seq<Node>)
    requires l == a + [x] + b && l' == kids + a + b
    requires Union(Cells(kids)) == multiset(x.kpts)
    ensures Union(Cells(l')) == Union(Cells(l))
  {
    CellsAppend(kids + a, b);
    CellsAppend(kids, a);
    CellsAppend(a + [x], b);
    CellsAppend(a, [x]);
    UnionAppend(Cells(kids + a), Cells(b));
    UnionAppend(Cells(kids), Cells(a));
    UnionAppend(Cells(a + [x]), Cells(b));
    UnionAppend(Cells(a), Cells([x]));
    KeepPoints(x);
    assert Cells([x]) == [x.kpts];
    assert Union([x.kpts]) == multiset(x.kpts) by {
      assert [x.kpts][..0] == [];
    }
  }

  /** nodesList.size() >= N, with N converted to the unsigned size type: a negative N is never
      reached. */
  predicate Reached(size: int, n: int) {
    0 <= n <= size
  }

  /** The outcome of one pass: the walk read past the end of the list, a division triggered
      omegadoom, or the walk went through the whole list. */
  datatype Pass = Undefined | Stopped(nodes: seq<Node>) | Completed(nodes: seq<Node>)

  /** One pass of the omegadoom loop. The walk starts at begin() with lastSize the list's
      length. An empty node is erased and the walk goes on with the next node without testing
      it again; if there is none, current->leaf reads end(). No listed node is a leaf, so every
      node the walk reaches is divided and erased, its children going to the front, behind
      the walk. After each division the pass stops when the list is back to lastSize nodes or
      has reached N. */
  method Walk(nodes: seq<Node>, n: int) returns (o: Pass)
    requires NoLeaf(nodes)
    ensures o.Undefined? ==> nodes != [] && nodes[|nodes| - 1].kpts == []
    ensures Filled(nodes) ==> !o.Undefined?
    ensures !o.Undefined? ==> NoLeaf(o.nodes) && Union(Cells(o.nodes)) == Union(Cells(nodes))
    ensures o.Stopped? ==> |o.nodes| == |nodes| || Reached(|o.nodes|, n)
    ensures o.Completed? ==> Filled(o.nodes)
    ensures o.Completed? && nodes != [] ==> |o.nodes| != |nodes|
    ensures o.Completed? && nodes != [] && Filled(nodes) ==> |o.nodes| > |nodes|
    ensures Filled(nodes) && !o.Undefined? ==> Filled(o.nodes)
    ensures o.Completed? && nodes != [] ==> !Reached(|o.nodes|, n)
    ensures o == PassOver(nodes, n)
  {
    var list := nodes;
    var cur: nat, j: nat := 0, 0;
    ghost var front: seq<Node> := [];
    ghost var kids := KidsOf(nodes);
    while j < |nodes|
      invariant WalkInv(nodes, list, cur, j, front)
      invariant j > 0 ==> |list| != |nodes| && !Reached(|list|, n)
      invariant Filled(nodes) ==> cur >= j
      invariant WalkFrom(nodes, kids, n, front, j) == PassOver(nodes, n)
      decreases |nodes| - j
    {
      var stop, undefined;
      list, cur, j, front, stop, undefined := WalkStep(nodes, kids, n, list, cur, j, front);
      if undefined {
        return Undefined;
      }
      if stop {
        return Stopped(list);
      }
    }
    assert list == front;
    return Completed(list);
  }

  /** One turn of the walk: Visit, then the two stopping tests of the source (the size is back
      to lastSize, the size reaches N). */
  method WalkStep(nodes: seq<Node>, ghost kids: seq<seq<Node>>, n: int, list: seq<Node>, cur: nat, j: nat,
                  ghost front: seq<Node>)
    returns (list': seq<Node>, cur': nat, j': nat, ghost front': seq<Node>, stop: bool, undefined: bool)
    requires WalkInv(nodes, list, cur, j, front) && j < |nodes| && kids == KidsOf(nodes)
    requires Filled(nodes) ==> cur >= j
    ensures undefined ==> WalkFrom(nodes, kids, n, front, j) == Undefined
    ensures undefined ==> nodes[|nodes| - 1].kpts == [] && !Filled(nodes)
    ensures !undefined ==> WalkInv(nodes, list', cur', j', front') && (Filled(nodes) ==> cur' >= j') && j < j'
    ensures !undefined && stop ==> WalkFrom(nodes, kids, n, front, j) == Stopped(list')
    ensures !undefined && stop ==> NoLeaf(list') && (Filled(nodes) ==> Filled(list'))
    ensures !undefined && stop ==> |list'| == |nodes| || Reached(|list'|, n)
    ensures !undefined && !stop ==> WalkFrom(nodes, kids, n, front', j') == WalkFrom(nodes, kids, n, front, j)
    ensures !undefined && !stop ==> |list'| != |nodes| && !Reached(|list'|, n)
  {
    list', cur', j', front', undefined := Visit(nodes, kids, list, cur, j, front);
    stop := false;
    if undefined {
      return;
    }
    WalkOne(nodes, kids, n, front, j, front', j');
    if |list'| == |nodes| || Reached(|list'|, n) {
      Join(front', nodes, j');
      stop := true;
    }
  }


  /** The pass Walk makes over nodes, kids[i] being the children node i divides into, from
      position j with the children pushed so far in front: an empty node is passed over to the next one, which must exist; that node is
      divided, and the pass stops once the list is back to |nodes| nodes or has reached n. */
  ghost function WalkFrom(nodes: seq<Node>, kids: seq<seq<Node>>, n: int, front: seq<Node>, j: nat): Pass
    requires j <= |nodes| == |kids|
    decreases |nodes| - j
  {
    if j == |nodes| then Completed(front)
    else
      var j1 := if nodes[j].kpts == [] then j + 1 else j;
      if j1 == |nodes| then Undefined
      else
        var front' := kids[j1] + front;
        var size := |front'| + |nodes| - (j1 + 1);
        if size == |nodes| || Reached(size, n) then Stopped(front' + nodes[j1 + 1..])
        else WalkFrom(nodes, kids, n, front', j1 + 1)
  }

  /** One pass over nodes, each node dividing into its pushed children. */
  ghost function PassOver(nodes: seq<Node>, n: int): Pass {
    WalkFrom(nodes, KidsOf(nodes), n, [], 0)
  }

  /** WalkFrom after one division: the pass stops on the resulting list, or goes on from the
      next position. */
  lemma WalkOne(nodes: seq<Node>, kids: seq<seq<Node>>, n: int, front: seq<Node>, j: nat, front': seq<Node>, j': nat)
    requires j < |nodes| == |kids|
    requires var j1 := if nodes[j].kpts == [] then j + 1 else j;
      j1 < |nodes| && j' == j1 + 1 && front' == kids[j1] + front
    ensures var list := front' + nodes[j'..];
      WalkFrom(nodes, kids, n, front, j) ==
        if |list| == |nodes| || Reached(|list|, n) then Stopped(list) else WalkFrom(nodes, kids, n, front', j')
  {
  }

  /** The walk after j of the nodes: the children pushed so far (front), then the nodes not yet
      reached; current is at position cur = |front|. The list holds the points it began with. */
  ghost predicate WalkInv(nodes: seq<Node>, list: seq<Node>, cur: nat, j: nat, front: seq<Node>) {
    && NoLeaf(nodes) && j <= |nodes| && cur == |front|
    && list == front + nodes[j..]
    && Filled(front) && NoLeaf(front)
    && Union(Cells(list)) == Union(Cells(nodes))
  }

  /** The body of the walk at current: an empty node is erased and the walk moves on to the next
      node, which must exist (else current->leaf reads end()); that node is divided and
      erased. */
  method Visit(nodes: seq<Node>, ghost kids: seq<seq<Node>>, list: seq<Node>, cur: nat, j: nat,
               ghost front: seq<Node>)
    returns (list': seq<Node>, cur': nat, j': nat, ghost front': seq<Node>, undefined: bool)
    requires WalkInv(nodes, list, cur, j, front) && j < |nodes| && kids == KidsOf(nodes)
    ensures undefined ==> nodes[|nodes| - 1].kpts == []
    ensures undefined <==> nodes[j].kpts == [] && j + 1 == |nodes|
    ensures !undefined ==> WalkInv(nodes, list', cur', j', front') && j < j'
    ensures !undefined ==> var j1 := if nodes[j].kpts == [] then j + 1 else j;
      j' == j1 + 1 && front' == kids[j1] + front
    ensures Filled(nodes) ==> !undefined && j' == j + 1 && cur' > cur
  {
    list', cur', j', front' := list, cur, j, front;
    Around(front', nodes, j');
    if list'[cur'].kpts == [] {
      list', j' := EraseEmpty(nodes, list', cur', j', front');
      if j' == |nodes| {
        return list', cur', j', front', true;
      }
      Around(front', nodes, j');
    }
    KidsOfAt(nodes, j');
    list', cur', j', front' := DivideCurrent(nodes, list', cur', j', front');
    undefined := false;
  }

  /** nodesList.erase(current) of an empty node: the walk moves on to the next node. */
  method EraseEmpty(nodes: seq<Node>, list: seq<Node>, cur: nat, j: nat, ghost front: seq<Node>)
    returns (list': seq<Node>, j': nat)
    requires WalkInv(nodes, list, cur, j, front) && j < |nodes| && nodes[j].kpts == []
    ensures WalkInv(nodes, list', cur, j', front) && j' == j + 1
  {
    Around(front, nodes, j);
    list' := list[..cur] + list[cur + 1..];
    assert list' == [] + front + nodes[j + 1..];
    Replace(list, list', front, nodes[j], nodes[j + 1..], []);
    j' := j + 1;
  }

  /** A non-empty current node is divided: its non-empty children go to the front of the list
      and the node itself is erased. */
  method DivideCurrent(nodes: seq<Node>, list: seq<Node>, cur: nat, j: nat, ghost front: seq<Node>)
    returns (list': seq<Node>, cur': nat, j': nat, ghost front': seq<Node>)
    requires WalkInv(nodes, list, cur, j, front) && j < |nodes|
    ensures WalkInv(nodes, list', cur', j', front') && j' == j + 1
    ensures front' == PushedKids(nodes[j]) + front
    ensures nodes[j].kpts != [] ==> cur' > cur
  {
    Around(front, nodes, j);
    var kids;
    list', kids := SplitAt(list, cur);
    Replace(list, list', front, nodes[j], nodes[j + 1..], kids);
    Join(kids, front, 0);
    front', cur', j' := kids + front, cur + |kids|, j + 1;
    assert list' == front' + nodes[j'..];
  }

  /** The list front + nodes[j..] around its position |front|. */
  lemma Around(front: seq<Node>, nodes: seq<Node>, j: nat)
    requires j < |nodes|
    ensures var l := front + nodes[j..];
      && l[..|front|] == front && l[|front|] == nodes[j] && l[|front| + 1..] == nodes[j + 1..]
      && front + [nodes[j]] + nodes[j + 1..] == l
  {
  }

  /** Non-empty, non-leaf nodes stay so when lists are joined. */
  lemma Join(front: seq<Node>, nodes: seq<Node>, j: nat)
    requires j <= |nodes|
    ensures NoLeaf(front) && NoLeaf(nodes) ==> NoLeaf(front + nodes[j..])
    ensures Filled(front) && Filled(nodes) ==> Filled(front + nodes[j..])
  {
    var l := front + nodes[j..];
    assert forall p :: |front| <= p < |l| ==> l[p] == nodes[j + p - |front|];
  }

  /** k is a point of pts that no point of pts outresponds. */
  ghost predicate Best(k: KeyPoint, pts: seq<KeyPoint>) {
    k in pts && forall d :: d in pts ==> d.response <= k.response
  }

  /** One point taken from each node of a list is a sub-multiset of the list's points. */
  lemma {:induction false} OnePerNode(r: seq<KeyPoint>, nodes: seq<Node>)
    requires |r| == |nodes| && forall p :: 0 <= p < |r| ==> r[p] in nodes[p].kpts
    ensures multiset(r) <= Union(Cells(nodes))
    decreases |r|
  {
    if r != [] {
      var m := |r| - 1;
      OnePerNode(r[..m], nodes[..m]);
      assert Cells(nodes)[..m] == Cells(nodes[..m]);
      assert r == r[..m] + [r[m]];
      assert r[m] in multiset(Cells(nodes)[m]);
    }
  }

  /** ORBextractor::DistributeKeypoints on a frame of width maxX - minX and height
      maxY - minY, with N the level's quota. The strips need a height of at least 1 and no
      more height than width (else nroots is 0 and the strip width a division by zero), and
      every point a non-negative x. The result is None where the source reads past the list
      or reads nodeKpts[0] of an empty node; that happens only when a root strip holds no
      point. Otherwise the loop ended on its stopping rule, the final nodes hold every point
      once, and the result is one strongest point of each node, in list order. */
  method DistributeKeypoints(kpts: seq<KeyPoint>, minX: int, maxX: int, minY: int, maxY: int, n: int)
    returns (r: Option<seq<KeyPoint>>, ghost nodes: seq<Node>, ghost lastSize: int,
             ghost lists: seq<seq<Node>>, ghost last: Pass)
    requires maxY - minY >= 1 && maxX - minX >= maxY - minY
    requires kpts != []
    requires forall k :: k in kpts ==> k.x >= 0
    ensures var nroots := RootCount(maxX - minX, maxY - minY);
      var f := RootOf(nroots, RoundDiv(maxX - minX, nroots));
      (forall i :: 0 <= i < nroots ==> Bucket(kpts, f, i) != []) ==> r.Some?
    ensures Ran(Seeded(kpts, minX, maxX, minY, maxY), n, lists, last) && lastSize == |lists[|lists| - 1]|
    ensures r.Some? <==> last.Stopped? && Filled(last.nodes)
    ensures r.Some? ==> nodes == last.nodes
    ensures r.Some? ==> Filled(nodes) && Union(Cells(nodes)) == multiset(kpts) && |nodes| <= |kpts|
    ensures r.Some? ==> |nodes| == lastSize || Reached(|nodes|, n)
    ensures r.Some? ==> |r.value| == |nodes| && multiset(r.value) <= multiset(kpts)
    ensures r.Some? ==> forall p :: 0 <= p < |nodes| ==> Best(r.value[p], nodes[p].kpts)
  {
    var roots, nroots, nodeWidth := SeedRoots(kpts, minX, maxX, minY, maxY);
    var divided;
    divided, lastSize, lists, last := Subdivide(roots, kpts, n);
    if divided.None? {
      return None, roots, lastSize, lists, last;
    }
    var list := divided.value;
    nodes := list;
    r := Representatives(list);
    if r.Some? {
      OnePerNode(r.value, nodes);
      UnionSize(Cells(nodes));
    }
  }

  /** The state of the omegadoom loop after k passes over the roots: Completed(list) while
      the loop goes on with list, and, from the first pass that does not complete, that pass's
      outcome for good. */
  ghost function Passes(roots: seq<Node>, n: int, k: nat): Pass
    decreases k
  {
    if k == 0 then Completed(roots)
    else
      var s := Passes(roots, n, k - 1);
      if s.Completed? then PassOver(s.nodes, n) else s
  }

  /** Once a pass has stopped or read past the list, later pass counts change nothing. */
  lemma {:induction false} PassesStay(roots: seq<Node>, n: int, k: nat, k': nat)
    requires !Passes(roots, n, k).Completed? && k <= k'
    ensures Passes(roots, n, k') == Passes(roots, n, k)
    decreases k'
  {
    if k' > k {
      PassesStay(roots, n, k, k' - 1);
    }
  }

  /** lists[i] is the list pass i begins with: lists[0] is the roots, and every pass but the
      last completes with the list the next one begins with. */
  ghost predicate Chain(roots: seq<Node>, n: int, lists: seq<seq<Node>>) {
    && |lists| >= 1 && lists[0] == roots
    && forall i {:trigger PassOver(lists[i], n)} :: 0 <= i < |lists| - 1 ==>
      PassOver(lists[i], n) == Completed(lists[i + 1])
  }

  /** The omegadoom loop ran the passes of lists: each pass but the last completed with the
      list the next one begins with, and the last ended on last, which is not a completion. */
  ghost predicate Ran(roots: seq<Node>, n: int, lists: seq<seq<Node>>, last: Pass) {
    && |lists| >= 1 && lists[0] == roots && !last.Completed?
    && forall i {:trigger PassOver(lists[i], n)} :: 0 <= i < |lists| ==>
      PassOver(lists[i], n) == if i + 1 < |lists| then Completed(lists[i + 1]) else last
  }

  /** A pass over the last list of a chain that does not complete ends the run. */
  lemma ChainEnd(roots: seq<Node>, n: int, lists: seq<seq<Node>>, last: Pass)
    requires Chain(roots, n, lists) && PassOver(lists[|lists| - 1], n) == last && !last.Completed?
    ensures Ran(roots, n, lists, last)
  {
    forall i | 0 <= i < |lists|
      ensures PassOver(lists[i], n) == if i + 1 < |lists| then Completed(lists[i + 1]) else last
    {
      if i + 1 < |lists| {
        assert PassOver(lists[i], n) == Completed(lists[i + 1]);
      }
    }
  }

  /** A completed pass over the last list of a chain extends it. */
  lemma ChainGrow(roots: seq<Node>, n: int, lists: seq<seq<Node>>, next: seq<Node>)
    requires Chain(roots, n, lists) && PassOver(lists[|lists| - 1], n) == Completed(next)
    ensures Chain(roots, n, lists + [next])
  {
    var l := lists + [next];
    forall i | 0 <= i < |l| - 1 ensures PassOver(l[i], n) == Completed(l[i + 1]) {
      assert l[i] == lists[i];
      if i < |lists| - 1 {
        assert PassOver(lists[i], n) == Completed(lists[i + 1]);
      }
    }
  }

  /** The passes of a chain are the passes of the loop: Passes completes with lists[i] after i
      passes, and a run that ends on last has Passes(|lists|) == last from then on, so the run
      of a given list of roots is unique. */
  lemma {:induction false} ChainPasses(roots: seq<Node>, n: int, lists: seq<seq<Node>>, i: nat)
    requires Chain(roots, n, lists) && i < |lists|
    ensures Passes(roots, n, i) == Completed(lists[i])
    decreases i
  {
    if i > 0 {
      ChainPasses(roots, n, lists, i - 1);
      assert PassOver(lists[i - 1], n) == Completed(lists[i]);
    }
  }

  /** A finished run is the loop's outcome after |lists| passes, and after any later count. */
  lemma RanPasses(roots: seq<Node>, n: int, lists: seq<seq<Node>>, last: Pass, k: nat)
    requires Ran(roots, n, lists, last) && |lists| <= k
    ensures Passes(roots, n, k) == last
  {
    forall i | 0 <= i < |lists| - 1 ensures PassOver(lists[i], n) == Completed(lists[i + 1]) {
      assert PassOver(lists[i], n) == if i + 1 < |lists| then Completed(lists[i + 1]) else last;
    }
    ChainPasses(roots, n, lists, |lists| - 1);
    assert PassOver(lists[|lists| - 1], n) == last;
    assert Passes(roots, n, |lists|) == last;
    PassesStay(roots, n, |lists|, k);
  }

  /** One pass of the omegadoom loop over the list the last pass of lists begins with: a
      completed pass extends the chain, any other outcome ends the run. */
  method Step(ghost roots: seq<Node>, n: int, list: seq<Node>, ghost lists: seq<seq<Node>>)
    returns (p: Pass, ghost lists': seq<seq<Node>>)
    requires NoLeaf(list) && Chain(roots, n, lists) && lists[|lists| - 1] == list
    ensures p.Completed? ==> lists' == lists + [p.nodes] && Chain(roots, n, lists')
    ensures !p.Completed? ==> lists' == lists && Ran(roots, n, lists, p)
    ensures Filled(list) ==> !p.Undefined?
    ensures !p.Undefined? ==> NoLeaf(p.nodes) && Union(Cells(p.nodes)) == Union(Cells(list))
    ensures p.Stopped? ==> |p.nodes| == |list| || Reached(|p.nodes|, n)
    ensures p.Completed? ==> Filled(p.nodes)
    ensures p.Completed? && list != [] && Filled(list) ==> |p.nodes| > |list|
    ensures Filled(list) && !p.Undefined? ==> Filled(p.nodes)
  {
    p := Walk(list, n);
    if p.Completed? {
      ChainGrow(roots, n, lists, p.nodes);
      lists' := lists + [p.nodes];
    } else {
      ChainEnd(roots, n, lists, p);
      lists' := lists;
    }
  }

  /** What the omegadoom loop keeps while it goes on with list: no listed node is a leaf, the
      list holds the points and is not empty, every node holds a point once a pass completed,
      and lists ends with list. */
  ghost predicate Looping(roots: seq<Node>, kpts: seq<KeyPoint>, n: int, list: seq<Node>,
                          lists: seq<seq<Node>>, filled: bool) {
    && NoLeaf(list) && Union(Cells(list)) == multiset(kpts) && list != []
    && (filled ==> Filled(list))
    && Chain(roots, n, lists) && lists[|lists| - 1] == list
  }

  /** One turn of the omegadoom loop: the pass over list, with what the loop needs of it. A
      completed pass leaves a filled list no longer than the points, longer than list when
      list was filled; a pass that stops leaves the points in non-leaf nodes. */
  method Turn(ghost roots: seq<Node>, ghost kpts: seq<KeyPoint>, n: int, list: seq<Node>,
              ghost lists: seq<seq<Node>>, ghost filled: bool)
    returns (p: Pass, ghost lists': seq<seq<Node>>)
    requires Looping(roots, kpts, n, list, lists, filled) && kpts != []
    ensures filled ==> |list| <= |kpts| && !p.Undefined?
    ensures p.Completed? ==> Looping(roots, kpts, n, p.nodes, lists', true) && |p.nodes| <= |kpts|
    ensures p.Completed? && filled ==> |list| < |p.nodes|
    ensures !p.Completed? ==> lists' == lists && Ran(roots, n, lists, p)
    ensures p.Stopped? ==> NoLeaf(p.nodes) && Union(Cells(p.nodes)) == multiset(kpts) && p.nodes != []
    ensures p.Stopped? ==> |p.nodes| == |list| || Reached(|p.nodes|, n)
    ensures p.Stopped? && filled ==> Filled(p.nodes)
  {
    if filled {
      UnionSize(Cells(list));
    }
    p, lists' := Step(roots, n, list, lists);
    if !p.Undefined? {
      assert p.nodes != [] by {
        assert kpts[0] in multiset(kpts);
      }
    }
    if p.Completed? {
      UnionSize(Cells(p.nodes));
    }
  }

  /** The omegadoom loop: passes until one stops. Before the first pass a root may be empty;
      after a completed pass every node holds a point, and every later completed pass makes
      the list longer, which bounds the number of passes by the number of points. The loop
      ran the passes of lists, lastSize being the length of the list the final pass began
      with. */
  method Subdivide(roots: seq<Node>, ghost kpts: seq<KeyPoint>, n: int)
    returns (o: Option<seq<Node>>, ghost lastSize: int, ghost lists: seq<seq<Node>>, ghost last: Pass)
    requires NoLeaf(roots) && Union(Cells(roots)) == multiset(kpts) && kpts != []
    ensures Ran(roots, n, lists, last) && lastSize == |lists[|lists| - 1]|
    ensures o == if last.Stopped? then Some(last.nodes) else None
    ensures Filled(roots) ==> o.Some?
    ensures o.Some? ==> NoLeaf(o.value) && Union(Cells(o.value)) == multiset(kpts)
    ensures o.Some? ==> |o.value| == lastSize || Reached(|o.value|, n)
    ensures o.Some? && Filled(roots) ==> Filled(o.value)
  {
    var list := roots;
    ghost var filled := Filled(roots);
    var done := false;
    lastSize, lists, last := |list|, [roots], Completed(roots);
    assert list != [] by {
      assert kpts[0] in multiset(kpts);
    }
    if filled {
      UnionSize(Cells(list));
    }
    while !done
      invariant !done ==> Looping(roots, kpts, n, list, lists, filled)
      invariant !done && filled ==> |list| <= |kpts|
      invariant Filled(roots) ==> filled
      invariant done ==> NoLeaf(list) && Union(Cells(list)) == multiset(kpts) && (filled ==> Filled(list))
      invariant done ==> |list| == lastSize || Reached(|list|, n)
      invariant done ==> Ran(roots, n, lists, last) && last == Stopped(list) && lastSize == |lists[|lists| - 1]|
      decreases !done, !filled, |kpts| - |list|
    {
      lastSize := |list|;
      var p;
      p, lists := Turn(roots, kpts, n, list, lists, filled);
      match p {
        case Undefined =>
          return None, lastSize, lists, p;
        case Stopped(l) =>
          list, done, last := l, true, p;
        case Completed(l) =>
          list, filled := l, true;
      }
    }
    o := Some(list);
  }

  /** The result loop: RetainBestN(node.nodeKpts, 1) then nodeKpts[0] for every node, in list
      order. An empty node leaves nodeKpts[0] past the end: None. */
  method Representatives(nodes: seq<Node>) returns (r: Option<seq<KeyPoint>>)
    ensures Filled(nodes) <==> r.Some?
    ensures r.Some? ==> |r.value| == |nodes| && forall p :: 0 <= p < |nodes| ==> Best(r.value[p], nodes[p].kpts)
  {
    var res: seq<KeyPoint> := [];
    for p := 0 to |nodes|
      invariant |res| == p
      invariant forall q :: 0 <= q < p ==> Best(res[q], nodes[q].kpts)
      invariant forall q :: 0 <= q < p ==> nodes[q].kpts != []
    {
      var best := OrbExtractor.RetainBestN(nodes[p].kpts, 1);
      if |best| == 0 {
        return None;
      }
      OrbExtractor.BestOfNode(nodes[p].kpts, best);
      res := res + [best[0]];
    }
    r := Some(res);
  }
}
