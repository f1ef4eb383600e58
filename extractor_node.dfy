/** The quadtree node of both quadtree strategies (ExtractorNode in src/Distribution.cpp and in
    src/ORBextractor.cpp, whose DivideNode bodies are identical). */
module ExtractorNodes {
  import opened KeyPoints

  /** A node: the corners of its rectangle, the points it owns, and the flag that stops it
      from being split again. */
  datatype Node = Node(ul: Point, ur: Point, ll: Point, lr: Point, kpts: seq<KeyPoint>, leaf: bool)

  /** (int)std::ceil((float)d / 2.f), exactly, for an integer d. */
  function CeilHalf(d: int): (h: int)
    ensures d <= 2 * h <= d + 1
  {
    (d + 1) / 2
  }

  /** The split lines: the left edge plus half the width, rounded up; likewise for the top. */
  function MidX(n: Node): int { n.ul.x + CeilHalf(n.ur.x - n.ul.x) }
  function MidY(n: Node): int { n.ul.y + CeilHalf(n.ll.y - n.ul.y) }

  /** The child a point goes to: 0 is n1 (upper left), 1 is n2 (upper right), 2 is n3 (lower
      left), 3 is n4 (lower right). The comparisons are strict, so a point on a split line
      goes right or down and is never counted twice. */
  function Quadrant(k: KeyPoint, mx: int, my: int): int {
    if k.x < mx then (if k.y < my then 0 else 2) else (if k.y < my then 1 else 3)
  }

  function QuadrantOf(mx: int, my: int): KeyPoint -> int {
    k => Quadrant(k, mx, my)
  }

  /** A fresh child (leaf == false) with the given corners and no points yet. */
  function Child(ul: Point, ur: Point, ll: Point, lr: Point, kpts: seq<KeyPoint>): Node {
    Node(ul, ur, ll, lr, kpts, false)
  }

  /** The four children ExtractorNode::DivideNode makes of a node, n1 to n4: the quadrants
      around the midpoint, each holding the parent's points of its quadrant in input order. */
  function Children(node: Node): seq<Node> {
    var mx, my := MidX(node), MidY(node);
    var q := QuadrantOf(mx, my);
    [ Child(node.ul, Point(mx, node.ul.y), Point(node.ul.x, my), Point(mx, my), Bucket(node.kpts, q, 0)),
      Child(Point(mx, node.ul.y), node.ur, Point(mx, my), Point(node.ur.x, my), Bucket(node.kpts, q, 1)),
      Child(Point(node.ul.x, my), Point(mx, my), node.ll, Point(mx, node.ll.y), Bucket(node.kpts, q, 2)),
      Child(Point(mx, my), Point(node.ur.x, my), Point(mx, node.ll.y), node.lr, Bucket(node.kpts, q, 3)) ]
  }

  /** ExtractorNode::DivideNode: the four children tile the parent's rectangle around the
      midpoint, and every point of the parent goes to exactly one child, in its original order. */
  method DivideNode(node: Node) returns (n1: Node, n2: Node, n3: Node, n4: Node)
    ensures var mx, my := MidX(node), MidY(node);
      && n1 == Child(node.ul, Point(mx, node.ul.y), Point(node.ul.x, my), Point(mx, my), n1.kpts)
      && n2 == Child(Point(mx, node.ul.y), node.ur, Point(mx, my), Point(node.ur.x, my), n2.kpts)
      && n3 == Child(Point(node.ul.x, my), Point(mx, my), node.ll, Point(mx, node.ll.y), n3.kpts)
      && n4 == Child(Point(mx, my), Point(node.ur.x, my), Point(mx, node.ll.y), node.lr, n4.kpts)
      && n1.kpts == Bucket(node.kpts, QuadrantOf(mx, my), 0)
      && n2.kpts == Bucket(node.kpts, QuadrantOf(mx, my), 1)
      && n3.kpts == Bucket(node.kpts, QuadrantOf(mx, my), 2)
      && n4.kpts == Bucket(node.kpts, QuadrantOf(mx, my), 3)
    ensures var mx, my := MidX(node), MidY(node);
      && (forall k :: k in n1.kpts ==> k.x < mx && k.y < my)
      && (forall k :: k in n2.kpts ==> k.x >= mx && k.y < my)
      && (forall k :: k in n3.kpts ==> k.x < mx && k.y >= my)
      && (forall k :: k in n4.kpts ==> k.x >= mx && k.y >= my)
    ensures multiset(n1.kpts) + multiset(n2.kpts) + multiset(n3.kpts) + multiset(n4.kpts)
            == multiset(node.kpts)
    ensures |n1.kpts| + |n2.kpts| + |n3.kpts| + |n4.kpts| == |node.kpts|
    ensures [n1, n2, n3, n4] == Children(node)
  {
    var mx, my := MidX(node), MidY(node);
    var q := QuadrantOf(mx, my);
    var k1, k2, k3, k4 := [], [], [], [];
    var i := 0;
    while i < |node.kpts|
      invariant 0 <= i <= |node.kpts|
      invariant k1 == Bucket(node.kpts[..i], q, 0) && k2 == Bucket(node.kpts[..i], q, 1)
      invariant k3 == Bucket(node.kpts[..i], q, 2) && k4 == Bucket(node.kpts[..i], q, 3)
    {
      var k := node.kpts[i];
      assert node.kpts[..i + 1][..i] == node.kpts[..i];
      if k.x < mx {
        if k.y < my {
          k1 := k1 + [k];
        } else {
          k3 := k3 + [k];
        }
      } else {
        if k.y < my {
          k2 := k2 + [k];
        } else {
          k4 := k4 + [k];
        }
      }
      i := i + 1;
    }
    assert node.kpts[..i] == node.kpts;
    n1 := Child(node.ul, Point(mx, node.ul.y), Point(node.ul.x, my), Point(mx, my), k1);
    n2 := Child(Point(mx, node.ul.y), node.ur, Point(mx, my), Point(node.ur.x, my), k2);
    n3 := Child(Point(node.ul.x, my), Point(mx, my), node.ll, Point(mx, node.ll.y), k3);
    n4 := Child(Point(mx, my), Point(node.ur.x, my), Point(mx, node.ll.y), node.lr, k4);
    QuadrantsPartition(node.kpts, mx, my);
    assert |multiset(k1) + multiset(k2) + multiset(k3) + multiset(k4)| == |multiset(node.kpts)|;
  }

  /** The four quadrant buckets hold the parent's points by the strict-comparison rule and
      together are exactly the parent's points. */
  lemma QuadrantsPartition(s: seq<KeyPoint>, mx: int, my: int)
    ensures var q := QuadrantOf(mx, my);
      && (forall k :: k in Bucket(s, q, 0) ==> k.x < mx && k.y < my)
      && (forall k :: k in Bucket(s, q, 1) ==> k.x >= mx && k.y < my)
      && (forall k :: k in Bucket(s, q, 2) ==> k.x < mx && k.y >= my)
      && (forall k :: k in Bucket(s, q, 3) ==> k.x >= mx && k.y >= my)
      && multiset(Bucket(s, q, 0)) + multiset(Bucket(s, q, 1)) + multiset(Bucket(s, q, 2))
         + multiset(Bucket(s, q, 3)) == multiset(s)
  {
    var q := QuadrantOf(mx, my);
    BucketMembers(s, q, 0);
    BucketMembers(s, q, 1);
    BucketMembers(s, q, 2);
    BucketMembers(s, q, 3);
    BucketsPartition(s, q, 4);
    assert SumBuckets(s, q, 4) == SumBuckets(s, q, 3) + multiset(Bucket(s, q, 3));
    assert SumBuckets(s, q, 3) == SumBuckets(s, q, 2) + multiset(Bucket(s, q, 2));
    assert SumBuckets(s, q, 2) == SumBuckets(s, q, 1) + multiset(Bucket(s, q, 1));
    assert SumBuckets(s, q, 1) == SumBuckets(s, q, 0) + multiset(Bucket(s, q, 0));
  }
}
