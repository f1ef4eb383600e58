/** The division passes of the quadtree strategy (the omegadoom loop of
    Distribution::DistributeKeypointsQuadTree in src/Distribution.cpp): a full pass that splits
    every non-leaf node, and the partial passes that split the most populated new nodes first
    until N nodes exist. */
module Subdivision {
  import opened KeyPoints
  import opened ExtractorNodes
  import opened NodeLists
  import Sorting

  /** ids are distinct listed nodes, created at or after arena position lo, each holding more
      than one point: the entries of nodesToExpand. */
  ghost predicate Added(l: NodeList, ids: seq<nat>, lo: nat) {
    && Distinct(ids)
    && (forall id :: id in ids ==> lo <= id < |l.arena| && id in l.order)
    && (forall id :: id in ids ==> |l.arena[id].kpts| >= 2)
  }

  /** One of the four `if (!nX.nodeKpts.empty())` blocks, as a value: a child holding points is
      pushed to the front of the list, an empty child is dropped. */
  ghost function PushKid(l: NodeList, c: Node): NodeList {
    if c.kpts == [] then l else NodeList(l.arena + [c], [|l.arena|] + l.order)
  }

  /** The push blocks for the children in order. */
  ghost function PushAll(l: NodeList, kids: seq<Node>): NodeList
    decreases |kids|
  {
    if kids == [] then l else PushKid(PushAll(l, kids[..|kids| - 1]), kids[|kids| - 1])
  }

  /** The entries the push blocks add to nodesToExpand: the pushed children with more than
      one point, in push order. */
  ghost function KidIds(l: NodeList, kids: seq<Node>): seq<nat>
    decreases |kids|
  {
    if kids == [] then []
    else
      var pre := kids[..|kids| - 1];
      KidIds(l, pre) + (if |kids[|kids| - 1].kpts| >= 2 then [|PushAll(l, pre).arena|] else [])
  }

  /** The points held by a sequence of nodes. */
  ghost function NodePoints(nodes: seq<Node>): multiset<KeyPoint> {
    if nodes == [] then multiset{} else NodePoints(nodes[..|nodes| - 1]) + multiset(nodes[|nodes| - 1].kpts)
  }

  /** What pushing children does to a list: the arena only grows, every listed node stays
      listed, every newly listed node is a fresh non-empty non-leaf, and the list grows by at
      least one node when the children hold any point. */
  ghost predicate Grown(l: NodeList, r: NodeList) {
    && Valid(r)
    && |r.arena| >= |l.arena| && (forall x :: 0 <= x < |l.arena| ==> r.arena[x] == l.arena[x])
    && (forall x :: x in l.order ==> x in r.order)
    && (forall x :: x in r.order && x !in l.order ==>
          |l.arena| <= x < |r.arena| && r.arena[x].kpts != [] && !r.arena[x].leaf)
    && |r.order| >= |l.order|
  }

  lemma {:induction false} PushAllGrown(l: NodeList, kids: seq<Node>)
    requires Valid(l) && forall c :: c in kids ==> !c.leaf
    ensures Grown(l, PushAll(l, kids))
    ensures NodePoints(kids) != multiset{} ==> |PushAll(l, kids).order| > |l.order|
    decreases |kids|
  {
    if kids != [] {
      var pre, c := kids[..|kids| - 1], kids[|kids| - 1];
      assert forall k :: k in pre ==> k in kids;
      PushAllGrown(l, pre);
      var r0 := PushAll(l, pre);
      PushKidGrown(r0, c);
      GrownTrans(l, r0, PushKid(r0, c));
      if c.kpts == [] { assert NodePoints(kids) == NodePoints(pre); }
    }
  }

  /** The children's points join the union. */
  lemma {:induction false} PushAllUnion(l: NodeList, kids: seq<Node>)
    requires Valid(l)
    ensures Valid(PushAll(l, kids))
    ensures Union(Cells(PushAll(l, kids))) == Union(Cells(l)) + NodePoints(kids)
    decreases |kids|
  {
    if kids != [] {
      var pre, c := kids[..|kids| - 1], kids[|kids| - 1];
      PushAllUnion(l, pre);
      PushKidUnion(PushAll(l, pre), c);
    }
  }

  /** One push block: the list grows as Grown says, by one node exactly when the child holds
      points. */
  lemma PushKidGrown(l: NodeList, c: Node)
    requires Valid(l) && !c.leaf
    ensures Grown(l, PushKid(l, c))
    ensures c.kpts != [] ==> |PushKid(l, c).order| == |l.order| + 1
  {
    if c.kpts != [] {
      FrontValid(l, c);
    }
  }

  /** One push block adds exactly the child's points to the union. */
  lemma PushKidUnion(l: NodeList, c: Node)
    requires Valid(l)
    ensures Valid(PushKid(l, c))
    ensures Union(Cells(PushKid(l, c))) == Union(Cells(l)) + multiset(c.kpts)
  {
    if c.kpts != [] {
      var r := PushKid(l, c);
      FrontValid(l, c);
      assert Cells(r) == [c.kpts] + Cells(l) by {
        forall p | 0 < p < |r.order| ensures Cells(r)[p] == Cells(l)[p - 1] {
          assert r.order[p] == l.order[p - 1];
        }
      }
      UnionCons(c.kpts, Cells(l));
    }
  }

  lemma GrownTrans(a: NodeList, b: NodeList, c: NodeList)
    requires Valid(a) && Grown(a, b) && Grown(b, c)
    ensures Grown(a, c)
  {
  }

  /** Pushing a node to the front keeps the list well formed. */
  lemma FrontValid(l: NodeList, c: Node)
    requires Valid(l)
    ensures Valid(NodeList(l.arena + [c], [|l.arena|] + l.order))
  {
    var r := NodeList(l.arena + [c], [|l.arena|] + l.order);
    assert forall p :: 0 < p < |r.order| ==> r.order[p] == l.order[p - 1];
  }

  /** The nodesToExpand entries a division adds are distinct listed nodes created by it, each
      holding more than one point. */
  lemma {:induction false} KidIdsAdded(l: NodeList, kids: seq<Node>)
    requires Valid(l)
    ensures Added(PushAll(l, kids), KidIds(l, kids), |l.arena|)
    decreases |kids|
  {
    if kids != [] {
      var pre, c := kids[..|kids| - 1], kids[|kids| - 1];
      KidIdsAdded(l, pre);
      var r0 := PushAll(l, pre);
      PushAllArena(l, pre);
      var ids0 := KidIds(l, pre);
      if c.kpts != [] {
        var r := PushKid(r0, c);
        assert r.order[1..] == r0.order;
        forall id | id in ids0 ensures id in r.order && r.arena[id] == r0.arena[id] {
          var p :| 0 <= p < |r0.order| && r0.order[p] == id;
          assert r.order[p + 1] == id;
        }
        var ids := KidIds(l, kids);
        assert ids == ids0 + (if |c.kpts| >= 2 then [|r0.arena|] else []);
        forall p, q | 0 <= p < q < |ids| ensures ids[p] != ids[q] {
          if q == |ids0| { assert ids[p] in ids0; }
        }
      }
    }
  }

  lemma {:induction false} PushAllArena(l: NodeList, kids: seq<Node>)
    ensures |PushAll(l, kids).arena| >= |l.arena|
    decreases |kids|
  {
    if kids != [] {
      PushAllArena(l, kids[..|kids| - 1]);
    }
  }

  /** One push block as a method: ensures it is exactly PushKid, and reports the entry it adds
      to nodesToExpand. The source sets the leaf flag of a one-point child on its local copy
      after the push, so the listed node keeps leaf == false. */
  method PushChild(l: NodeList, c: Node) returns (l': NodeList, added: seq<nat>)
    requires Valid(l)
    ensures l' == PushKid(l, c)
    ensures added == (if |c.kpts| >= 2 then [|l.arena|] else [])
  {
    if c.kpts == [] {
      l', added := l, [];
    } else {
      l' := PushFront(l, c);
      added := if |c.kpts| >= 2 then [|l.arena|] else [];
    }
  }

  /** node->DivideNode(n1, n2, n3, n4) followed by the four push blocks, in the order n1, n2,
      n3, n4: the non-empty children of the node are pushed to the front, and those with more
      than one point are reported for nodesToExpand. */
  method SplitInto(l: NodeList, node: Node) returns (l': NodeList, added: seq<nat>)
    requires Valid(l)
    ensures l' == PushAll(l, Children(node)) && added == KidIds(l, Children(node))
    ensures NodePoints(Children(node)) == multiset(node.kpts)
    ensures forall c :: c in Children(node) ==> !c.leaf
  {
    var n1, n2, n3, n4 := DivideNode(node);
    FourPoints(n1, n2, n3, n4);
    FourNoLeaf(n1, n2, n3, n4);
    var l1, a1 := PushChild(l, n1);
    FrontValidKid(l, n1);
    var l2, a2 := PushChild(l1, n2);
    FrontValidKid(l1, n2);
    var l3, a3 := PushChild(l2, n3);
    FrontValidKid(l2, n3);
    var l4, a4 := PushChild(l3, n4);
    l', added := l4, a1 + a2 + a3 + a4;
    FourPushes(l, n1, n2, n3, n4);
  }

  /** Children that are not leaves make a list without leaves. */
  lemma FourNoLeaf(n1: Node, n2: Node, n3: Node, n4: Node)
    requires !n1.leaf && !n2.leaf && !n3.leaf && !n4.leaf
    ensures forall c :: c in [n1, n2, n3, n4] ==> !c.leaf
  {
    assert forall c :: c in [n1, n2, n3, n4] ==> c == n1 || c == n2 || c == n3 || c == n4;
  }

  lemma FourPoints(n1: Node, n2: Node, n3: Node, n4: Node)
    ensures NodePoints([n1, n2, n3, n4]) == multiset(n1.kpts) + multiset(n2.kpts) + multiset(n3.kpts) + multiset(n4.kpts)
  {
    assert [n1, n2, n3, n4][..3] == [n1, n2, n3] && [n1, n2, n3][..2] == [n1, n2];
    assert [n1, n2][..1] == [n1] && [n1][..0] == [];
    assert NodePoints([n1]) == multiset(n1.kpts);
    assert NodePoints([n1, n2]) == multiset(n1.kpts) + multiset(n2.kpts);
    assert NodePoints([n1, n2, n3]) == multiset(n1.kpts) + multiset(n2.kpts) + multiset(n3.kpts);
  }

  /** The four push blocks, unrolled. */
  lemma FourPushes(l: NodeList, n1: Node, n2: Node, n3: Node, n4: Node)
    ensures var l1 := PushKid(l, n1); var l2 := PushKid(l1, n2); var l3 := PushKid(l2, n3);
      && PushAll(l, [n1, n2, n3, n4]) == PushKid(l3, n4)
      && KidIds(l, [n1, n2, n3, n4]) ==
           (if |n1.kpts| >= 2 then [|l.arena|] else []) + (if |n2.kpts| >= 2 then [|l1.arena|] else [])
           + (if |n3.kpts| >= 2 then [|l2.arena|] else []) + (if |n4.kpts| >= 2 then [|l3.arena|] else [])
  {
    assert [n1, n2, n3, n4][..3] == [n1, n2, n3] && [n1, n2, n3][..2] == [n1, n2];
    assert [n1, n2][..1] == [n1] && [n1][..0] == [];
    var l1 := PushKid(l, n1); var l2 := PushKid(l1, n2); var l3 := PushKid(l2, n3);
    assert PushAll(l, [n1]) == l1;
    assert PushAll(l, [n1, n2]) == l2;
    assert PushAll(l, [n1, n2, n3]) == l3;
    assert KidIds(l, [n1]) == (if |n1.kpts| >= 2 then [|l.arena|] else []);
    assert KidIds(l, [n1, n2]) == KidIds(l, [n1]) + (if |n2.kpts| >= 2 then [|l1.arena|] else []);
    assert KidIds(l, [n1, n2, n3]) == KidIds(l, [n1, n2]) + (if |n3.kpts| >= 2 then [|l2.arena|] else []);
  }

  lemma FrontValidKid(l: NodeList, c: Node)
    requires Valid(l)
    ensures Valid(PushKid(l, c))
  {
    if c.kpts != [] { FrontValid(l, c); }
  }

  /** The list after dividing the node id: the non-empty DivideNode children of the node pushed
      to the front, n1 first, and the node erased through its saved iterator. */
  ghost function Divided(l: NodeList, id: nat): NodeList
    requires id < |l.arena|
  {
    var p := PushAll(l, Children(l.arena[id]));
    NodeList(p.arena, Remove(p.order, id))
  }

  /** The entries the division of node id appends to nodesToExpand. */
  ghost function DividedIds(l: NodeList, id: nat): seq<nat>
    requires id < |l.arena|
  {
    KidIds(l, Children(l.arena[id]))
  }

  /** One division inside a pass: the node `id` is divided, its non-empty children are pushed
      to the front, those with more than one point are appended to nodesToExpand, and the node
      is erased through its saved iterator. The list still partitions the same points, never
      shrinks, and every other listed node is untouched. */
  method Expand(r: NodeList, id: nat, expand: seq<nat>, ghost lo: nat, ghost total: multiset<KeyPoint>)
    returns (r': NodeList, expand': seq<nat>)
    requires Partitions(r, total) && id in r.order && id < lo <= |r.arena|
    requires Added(r, expand, lo)
    ensures r' == Divided(r, id) && expand' == expand + DividedIds(r, id)
    ensures Partitions(r', total) && id !in r'.order
    ensures Added(r', expand', lo) && |expand'| >= |expand| && expand'[..|expand|] == expand
    ensures |r'.order| >= |r.order| && |r'.arena| >= |r.arena|
    ensures forall x :: x in r.order && x != id ==> x in r'.order && r'.arena[x] == r.arena[x]
    ensures forall x :: x in r'.order && x !in r.order ==> x >= |r.arena|
  {
    var kids := Children(r.arena[id]);
    var r1, added := SplitInto(r, r.arena[id]);
    PushAllGrown(r, kids);
    PushAllUnion(r, kids);
    KidIdsAdded(r, kids);
    assert multiset(r.arena[id].kpts) != multiset{} by {
      assert r.arena[id].kpts[0] in multiset(r.arena[id].kpts);
    }
    r' := Erase(r1, id);
    expand' := expand + added;
    assert expand'[..|expand|] == expand;
    ErasePartitions(r, r1, r', id, total);
    EraseAdded(r, r1, r', id, expand, added, lo);
  }

  /** Replacing a node by its children keeps the partition of the points. */
  lemma ErasePartitions(r: NodeList, r1: NodeList, r': NodeList, id: nat, total: multiset<KeyPoint>)
    requires Partitions(r, total) && id in r.order
    requires Grown(r, r1) && Union(Cells(r1)) == Union(Cells(r)) + multiset(r.arena[id].kpts)
    requires Valid(r') && r'.arena == r1.arena
    requires forall x :: x in r'.order <==> x in r1.order && x != id
    requires Union(Cells(r')) + multiset(r1.arena[id].kpts) == Union(Cells(r1))
    ensures Partitions(r', total)
  {
    assert id < |r.arena| && r1.arena[id] == r.arena[id];
    var m := multiset(r.arena[id].kpts);
    assert Union(Cells(r')) == Union(Cells(r)) by {
      forall k ensures Union(Cells(r'))[k] == Union(Cells(r))[k] {
        assert (Union(Cells(r')) + m)[k] == (Union(Cells(r)) + m)[k];
      }
    }
  }

  /** The nodesToExpand entries of the pass so far survive the erasure of an older node, and the
      new entries join them. */
  lemma EraseAdded(r: NodeList, r1: NodeList, r': NodeList, id: nat, expand: seq<nat>, added: seq<nat>, lo: nat)
    requires Valid(r) && Added(r, expand, lo) && id < lo <= |r.arena|
    requires Grown(r, r1) && Added(r1, added, |r.arena|)
    requires r'.arena == r1.arena && forall x :: x in r'.order <==> x in r1.order && x != id
    ensures Added(r', expand + added, lo)
  {
    var e := expand + added;
    forall p, q | 0 <= p < q < |e| ensures e[p] != e[q] {
      if p < |expand| && q >= |expand| {
        assert e[p] in expand && e[q] in added;
      } else if p >= |expand| {
        assert e[p] == added[p - |expand|] && e[q] == added[q - |expand|];
      }
    }
  }

  /** A walk over the given nodes, in order, as a pass does it: a node flagged leaf is passed
      over, any other node is divided. The second component collects the nodesToExpand
      entries of the divisions. */
  ghost function PassOver(l: NodeList, ids: seq<nat>, expand: seq<nat>): (NodeList, seq<nat>)
    decreases |ids|
  {
    if ids == [] then (l, expand)
    else if ids[0] >= |l.arena| || l.arena[ids[0]].leaf then PassOver(l, ids[1..], expand)
    else PassOver(Divided(l, ids[0]), ids[1..], expand + DividedIds(l, ids[0]))
  }

  /** One pass of the omegadoom loop. It walks the nodes listed when the pass starts: the
      children of a divided node are pushed to the front, behind the walk, so the walk meets
      exactly these nodes, in list order. A leaf stays; every other node is divided and
      erased. nodesToExpand collects the new nodes with more than one point. */
  method FullPass(l: NodeList, ghost total: multiset<KeyPoint>) returns (r: NodeList, expand: seq<nat>)
    requires Partitions(l, total)
    ensures (r, expand) == PassOver(l, l.order, [])
    ensures Partitions(r, total) && |r.order| >= |l.order|
    ensures Added(r, expand, |l.arena|)
    ensures forall x :: x in l.order ==> (x in r.order <==> l.arena[x].leaf)
    ensures forall x :: x in l.order && x in r.order ==> r.arena[x] == l.arena[x]
  {
    var ids := l.order;
    r, expand := l, [];
    for k := 0 to |ids|
      invariant PassInv(l, total, ids, k, r, expand)
    {
      r, expand := PassStep(l, total, ids, k, r, expand);
    }
    forall x | x in l.order ensures (x in r.order <==> l.arena[x].leaf) && (x in r.order ==> r.arena[x] == l.arena[x]) {
      var j :| 0 <= j < |ids| && ids[j] == x;
    }
  }

  /** The state of a pass after k of the nodes it walks. */
  ghost predicate PassInv(l: NodeList, total: multiset<KeyPoint>, ids: seq<nat>, k: nat, r: NodeList, expand: seq<nat>) {
    && ids == l.order && Valid(l) && k <= |ids|
    && Partitions(r, total) && Added(r, expand, |l.arena|)
    && |r.order| >= |l.order| && |r.arena| >= |l.arena|
    && (forall j :: k <= j < |ids| ==> ids[j] in r.order && r.arena[ids[j]] == l.arena[ids[j]])
    && (forall j :: 0 <= j < k ==> (ids[j] in r.order <==> l.arena[ids[j]].leaf))
    && (forall j :: 0 <= j < k && ids[j] in r.order ==> r.arena[ids[j]] == l.arena[ids[j]])
    && (forall x :: x in r.order && x < |l.arena| ==> x in l.order)
    && PassOver(r, ids[k..], expand) == PassOver(l, ids, [])
  }

  /** The body of the walk for the k-th node: `if (current->leaf) continue;` or a division. */
  method PassStep(ghost l: NodeList, ghost total: multiset<KeyPoint>, ids: seq<nat>, k: nat, r: NodeList, expand: seq<nat>)
    returns (r': NodeList, expand': seq<nat>)
    requires PassInv(l, total, ids, k, r, expand) && k < |ids|
    ensures PassInv(l, total, ids, k + 1, r', expand')
  {
    var id := ids[k];
    assert ids[k..][1..] == ids[k + 1..];
    if r.arena[id].leaf {
      r', expand' := r, expand;
    } else {
      assert id < |l.arena|;
      r', expand' := Expand(r, id, expand, |l.arena|, total);
      PassStepFacts(l, ids, k, r, r');
    }
  }

  lemma PassStepFacts(l: NodeList, ids: seq<nat>, k: nat, r: NodeList, r': NodeList)
    requires ids == l.order && Valid(l) && k < |ids| && |r.arena| >= |l.arena|
    requires Valid(r) && Valid(r') && |r'.arena| >= |r.arena|
    requires forall j :: k <= j < |ids| ==> ids[j] in r.order && r.arena[ids[j]] == l.arena[ids[j]]
    requires forall j :: 0 <= j < k ==> (ids[j] in r.order <==> l.arena[ids[j]].leaf)
    requires forall j :: 0 <= j < k && ids[j] in r.order ==> r.arena[ids[j]] == l.arena[ids[j]]
    requires forall x :: x in r.order && x < |l.arena| ==> x in l.order
    requires !l.arena[ids[k]].leaf && ids[k] !in r'.order
    requires forall x :: x in r.order && x != ids[k] ==> x in r'.order && r'.arena[x] == r.arena[x]
    requires forall x :: x in r'.order && x !in r.order ==> x >= |r.arena|
    ensures forall j :: k + 1 <= j < |ids| ==> ids[j] in r'.order && r'.arena[ids[j]] == l.arena[ids[j]]
    ensures forall j :: 0 <= j < k + 1 ==> (ids[j] in r'.order <==> l.arena[ids[j]].leaf)
    ensures forall j :: 0 <= j < k + 1 && ids[j] in r'.order ==> r'.arena[ids[j]] == l.arena[ids[j]]
    ensures forall x :: x in r'.order && x < |l.arena| ==> x in l.order
  {
    forall j | 0 <= j < |ids| && j != k ensures ids[j] != ids[k] && ids[j] < |l.arena| {
      if j < k { assert ids[j] != ids[k]; } else { assert ids[k] != ids[j]; }
    }
  }

  /** The number of points of node id: the key the partial expansion sorts by. */
  function Size(l: NodeList, id: nat): nat {
    if id < |l.arena| then |l.arena[id].kpts| else 0
  }

  /** std::sort(prevNodes, ...) by node size, largest first. std::sort is not stable, so only
      the order of the sizes and the permutation are promised. */
  method SortBySize(l: NodeList, ids: seq<nat>) returns (sorted: seq<nat>)
    ensures multiset(sorted) == multiset(ids)
    ensures forall i, j :: 0 <= i < j < |sorted| ==> Size(l, sorted[i]) >= Size(l, sorted[j])
  {
    var a := new nat[|ids|](i requires 0 <= i < |ids| => ids[i]);
    assert a[..] == ids;
    Sorting.SelectLargest(a, (id: nat) => Size(l, id), a.Length);
    sorted := a[..];
  }

  /** A permutation of distinct ids is distinct. */
  lemma DistinctPerm(a: seq<nat>, b: seq<nat>)
    requires Distinct(a) && multiset(a) == multiset(b)
    ensures Distinct(b)
  {
    forall p, q | 0 <= p < q < |b| ensures b[p] != b[q] {
      if b[p] == b[q] {
        var x := b[p];
        assert b == b[..q] + [x] + b[q + 1..];
        assert x in b[..q];
        assert multiset(b)[x] >= 2;
        DistinctCount(a, x);
      }
    }
  }

  lemma {:induction false} DistinctCount(a: seq<nat>, x: nat)
    requires Distinct(a)
    ensures multiset(a)[x] <= 1
  {
    if a != [] {
      var pre := a[..|a| - 1];
      assert a == pre + [a[|a| - 1]];
      DistinctCount(pre, x);
      if a[|a| - 1] == x {
        assert x !in pre;
      }
    }
  }

  /** The state of a round of the partial expansion after k of the sorted nodes. */
  ghost predicate RoundInv(l: NodeList, total: multiset<KeyPoint>, sorted: seq<nat>, k: nat, r: NodeList, next: seq<nat>) {
    && Valid(l) && Added(l, sorted, 0) && k <= |sorted|
    && Partitions(r, total) && Added(r, next, |l.arena|)
    && |r.order| >= |l.order| && |r.arena| >= |l.arena|
    && (forall j :: k <= j < |sorted| ==> sorted[j] in r.order)
    && (forall j :: 0 <= j < k ==> sorted[j] !in r.order)
  }

  /** A round dividing the given nodes in order, ending as soon as the list holds n nodes. The
      second component collects the nodesToExpand entries of the divisions. */
  ghost function RoundOver(l: NodeList, ids: seq<nat>, n: int, next: seq<nat>): (NodeList, seq<nat>)
    decreases |ids|
  {
    if ids == [] then (l, next)
    else if ids[0] >= |l.arena| then RoundOver(l, ids[1..], n, next)
    else
      var l', next' := Divided(l, ids[0]), next + DividedIds(l, ids[0]);
      if |l'.order| >= n then (l', next') else RoundOver(l', ids[1..], n, next')
  }

  /** One round of the inner while(!omegadoom) loop: the nodes of the previous round, largest
      first, are divided one after the other until the list holds at least N nodes. The
      nodes before `done` were divided, the others are untouched. */
  method Round(l: NodeList, sorted: seq<nat>, n: int, ghost total: multiset<KeyPoint>)
    returns (r: NodeList, next: seq<nat>, ghost done: nat)
    requires Partitions(l, total) && Added(l, sorted, 0)
    ensures (r, next) == RoundOver(l, sorted, n, [])
    ensures Partitions(r, total) && Added(r, next, |l.arena|) && |r.order| >= |l.order|
    ensures done <= |sorted| && (done < |sorted| ==> |r.order| >= n)
    ensures forall j :: 0 <= j < done ==> sorted[j] !in r.order
    ensures forall j :: done <= j < |sorted| ==> sorted[j] in r.order
  {
    r, next := l, [];
    var k := 0;
    var stop := false;
    while k < |sorted| && !stop
      invariant RoundInv(l, total, sorted, k, r, next)
      invariant !stop ==> RoundOver(r, sorted[k..], n, next) == RoundOver(l, sorted, n, [])
      invariant stop ==> (r, next) == RoundOver(l, sorted, n, []) && |r.order| >= n
      decreases |sorted| - k
    {
      r, next, stop := RoundTurn(l, total, sorted, k, n, r, next);
      k := k + 1;
    }
    done := k;
  }

  /** One turn of the round: divide sorted[k], then stop once the list holds n nodes. */
  method RoundTurn(ghost l: NodeList, ghost total: multiset<KeyPoint>, sorted: seq<nat>, k: nat, n: int,
                   r: NodeList, next: seq<nat>)
    returns (r': NodeList, next': seq<nat>, stop: bool)
    requires RoundInv(l, total, sorted, k, r, next) && k < |sorted|
    requires RoundOver(r, sorted[k..], n, next) == RoundOver(l, sorted, n, [])
    ensures RoundInv(l, total, sorted, k + 1, r', next') && stop == (|r'.order| >= n)
    ensures !stop ==> RoundOver(r', sorted[k + 1..], n, next') == RoundOver(l, sorted, n, [])
    ensures stop ==> (r', next') == RoundOver(l, sorted, n, [])
  {
    r', next' := RoundStep(l, total, sorted, k, r, next);
    RoundOverStep(r, sorted, k, n, next, r', next');
    stop := |r'.order| >= n;
  }

  /** Dividing sorted[k] is the first step of the rest of the round. */
  lemma RoundOverStep(r: NodeList, sorted: seq<nat>, k: nat, n: int, next: seq<nat>, r': NodeList, next': seq<nat>)
    requires k < |sorted| && sorted[k] < |r.arena|
    requires r' == Divided(r, sorted[k]) && next' == next + DividedIds(r, sorted[k])
    ensures RoundOver(r, sorted[k..], n, next) ==
      if |r'.order| >= n then (r', next') else RoundOver(r', sorted[k + 1..], n, next')
  {
    assert sorted[k..][1..] == sorted[k + 1..];
  }

  method RoundStep(ghost l: NodeList, ghost total: multiset<KeyPoint>, sorted: seq<nat>, k: nat, r: NodeList, next: seq<nat>)
    returns (r': NodeList, next': seq<nat>)
    requires RoundInv(l, total, sorted, k, r, next) && k < |sorted|
    ensures RoundInv(l, total, sorted, k + 1, r', next')
    ensures sorted[k] < |r.arena| && r' == Divided(r, sorted[k]) && next' == next + DividedIds(r, sorted[k])
  {
    assert sorted[k] in sorted;
    r', next' := Expand(r, sorted[k], next, |l.arena|, total);
    forall j | 0 <= j < |sorted| && j != k ensures sorted[j] != sorted[k] && sorted[j] < |l.arena| {
      assert sorted[j] in sorted;
      if j < k { assert sorted[j] != sorted[k]; } else { assert sorted[k] != sorted[j]; }
    }
  }

  /** The order a round may divide the queued nodes in: std::sort by size, largest first. The
      sort is not stable, so nodes of equal size may come in either order. */
  ghost predicate BySize(l: NodeList, ids: seq<nat>, sorted: seq<nat>) {
    && multiset(sorted) == multiset(ids)
    && forall i, j :: 0 <= i < j < |sorted| ==> Size(l, sorted[i]) >= Size(l, sorted[j])
  }

  /** The partial expansion after a number of rounds: ok when each round divided the nodes the
      previous one queued, in an order BySize allows, and no round ran after the stopping
      rule held; the list, the queued nodes, and whether the stopping rule (N nodes, or a
      round that left the size unchanged) held after the last round. */
  datatype Rounds = Rounds(ok: bool, list: NodeList, queued: seq<nat>, stopped: bool)

  /** The rounds of the partial expansion, run with the given sort orders, one per round. */
  ghost function RunRounds(l: NodeList, expand: seq<nat>, n: int, orders: seq<seq<nat>>): Rounds
    decreases |orders|
  {
    if orders == [] then Rounds(true, l, expand, false)
    else
      var s := RunRounds(l, expand, n, orders[..|orders| - 1]);
      var o := orders[|orders| - 1];
      var (r, next) := RoundOver(s.list, o, n, []);
      Rounds(s.ok && !s.stopped && BySize(s.list, s.queued, o), r, next,
             |r.order| >= n || |r.order| == |s.list.order|)
  }

  /** The partial expansion (`else if (size + nToExpand*3 > N)`): rounds of Round over the
      nodes the previous round created, until the list holds N nodes or a round leaves it as
      long as it was. orders records the order std::sort gave each round. */
  method PartialExpansion(l: NodeList, expand: seq<nat>, n: int, ghost total: multiset<KeyPoint>)
    returns (r: NodeList, ghost orders: seq<seq<nat>>)
    requires Partitions(l, total) && Added(l, expand, 0)
    ensures var s := RunRounds(l, expand, n, orders); s.ok && s.stopped && s.list == r
    ensures Partitions(r, total) && |l.order| <= |r.order|
  {
    r := l;
    orders := [];
    var prev := expand;
    var stop := false;
    while !stop
      invariant Partitions(r, total) && Added(r, prev, 0) && |l.order| <= |r.order|
      invariant RunRounds(l, expand, n, orders) == Rounds(true, r, prev, stop)
      decreases (if stop then 0 else 1), |total| - |r.order|
    {
      r, prev, orders, stop := NextRound(l, expand, n, r, prev, orders, total);
    }
  }

  /** One round of the partial expansion: sort the nodes the previous round queued, run the
      round, and test the stopping rule. Without a stop the list grew. */
  method NextRound(ghost l: NodeList, ghost expand: seq<nat>, n: int, r: NodeList, prev: seq<nat>,
                   ghost orders: seq<seq<nat>>, ghost total: multiset<KeyPoint>)
    returns (r': NodeList, next: seq<nat>, ghost orders': seq<seq<nat>>, stop: bool)
    requires Partitions(r, total) && Added(r, prev, 0) && |l.order| <= |r.order|
    requires RunRounds(l, expand, n, orders) == Rounds(true, r, prev, false)
    ensures Partitions(r', total) && Added(r', next, 0) && |l.order| <= |r'.order|
    ensures RunRounds(l, expand, n, orders') == Rounds(true, r', next, stop)
    ensures !stop ==> |r.order| < |r'.order| <= |total|
  {
    var size := |r.order|;
    var sorted := SortBySize(r, prev);
    SortedAdded(r, prev, sorted);
    ghost var done;
    r', next, done := Round(r, sorted, n, total);
    stop := |r'.order| >= n || |r'.order| == size;
    orders' := orders + [sorted];
    RunRoundsSnoc(l, expand, n, orders, sorted, r, prev, r', next);
    PartitionsBound(r', total);
  }

  /** A reordering of the queued nodes is queued too. */
  lemma SortedAdded(r: NodeList, prev: seq<nat>, sorted: seq<nat>)
    requires Added(r, prev, 0) && multiset(sorted) == multiset(prev)
    ensures Added(r, sorted, 0)
  {
    DistinctPerm(prev, sorted);
    forall id ensures id in sorted <==> id in prev {
      assert id in sorted <==> id in multiset(sorted);
    }
  }

  /** A round run in an order BySize allows extends the rounds by one. */
  lemma RunRoundsSnoc(l: NodeList, expand: seq<nat>, n: int, orders: seq<seq<nat>>, sorted: seq<nat>,
                      r: NodeList, prev: seq<nat>, r': NodeList, next: seq<nat>)
    requires RunRounds(l, expand, n, orders) == Rounds(true, r, prev, false)
    requires BySize(r, prev, sorted) && (r', next) == RoundOver(r, sorted, n, [])
    ensures RunRounds(l, expand, n, orders + [sorted]) ==
      Rounds(true, r', next, |r'.order| >= n || |r'.order| == |r.order|)
  {
    assert (orders + [sorted])[..|orders|] == orders;
  }

  /** The full passes of the omegadoom loop: Open while no pass has ended the loop; Closed
      after the pass that ends it, with the nodes that pass queued and whether it hands over to
      the partial expansion. */
  datatype Outer = Open(list: NodeList) | Closed(list: NodeList, queued: seq<nat>, partial: bool)

  /** The state after k turns of the omegadoom loop's full passes; once Closed it stays so. */
  ghost function FullPasses(l: NodeList, n: int, k: nat): Outer
    decreases k
  {
    if k == 0 then Open(l)
    else
      var s := FullPasses(l, n, k - 1);
      if s.Closed? then s
      else
        var (r, expand) := PassOver(s.list, s.list.order, []);
        if |r.order| >= n || |r.order| == |s.list.order| then Closed(r, expand, false)
        else if |r.order| + |expand| * 3 > n then Closed(r, expand, true)
        else Open(r)
  }

  /** r is what the omegadoom loop leaves of l: k full passes closed the loop, either by the
      stopping rule, or by handing over to a partial expansion whose rounds used the sort
      orders given. */
  ghost predicate Subdivided(l: NodeList, n: int, k: nat, orders: seq<seq<nat>>, r: NodeList) {
    var s := FullPasses(l, n, k);
    && s.Closed?
    && if s.partial then var t := RunRounds(s.list, s.queued, n, orders); t.ok && t.stopped && t.list == r
       else orders == [] && r == s.list
  }

  /** A closed loop stays closed: the pass count of Subdivided is fixed by the input. */
  lemma {:induction false} ClosedStays(l: NodeList, n: int, k: nat, k': nat)
    requires FullPasses(l, n, k).Closed? && k <= k'
    ensures FullPasses(l, n, k') == FullPasses(l, n, k)
    decreases k'
  {
    if k' > k {
      ClosedStays(l, n, k, k' - 1);
    }
  }

  /** Two runs of the omegadoom loop on the same list close it with the same pass, so they
      differ at most in the order std::sort gave nodes of equal size. */
  lemma SubdividedUnique(l: NodeList, n: int, k1: nat, o1: seq<seq<nat>>, r1: NodeList,
                         k2: nat, o2: seq<seq<nat>>, r2: NodeList)
    requires Subdivided(l, n, k1, o1, r1) && Subdivided(l, n, k2, o2, r2)
    ensures FullPasses(l, n, k1) == FullPasses(l, n, k2)
    ensures !FullPasses(l, n, k1).partial ==> r1 == r2
  {
    if k1 <= k2 {
      ClosedStays(l, n, k1, k2);
    } else {
      ClosedStays(l, n, k2, k1);
    }
  }

  /** One more turn of the full passes from an open loop. */
  lemma FullPassesStep(l: NodeList, n: int, k: nat, m: NodeList, r: NodeList, expand: seq<nat>)
    requires FullPasses(l, n, k) == Open(m) && (r, expand) == PassOver(m, m.order, [])
    ensures FullPasses(l, n, k + 1) ==
      if |r.order| >= n || |r.order| == |m.order| then Closed(r, expand, false)
      else if |r.order| + |expand| * 3 > n then Closed(r, expand, true)
      else Open(r)
  {
  }

  /** The omegadoom loop: full passes until the list holds N nodes or a pass adds none, with a
      switch to the partial expansion once one more full pass could overshoot N. */
  method Subdivide(l: NodeList, n: int, ghost total: multiset<KeyPoint>)
    returns (r: NodeList, ghost passes: nat, ghost orders: seq<seq<nat>>)
    requires Partitions(l, total)
    ensures Subdivided(l, n, passes, orders, r)
    ensures Partitions(r, total) && |l.order| <= |r.order|
  {
    r := l;
    passes, orders := 0, [];
    var stop := false;
    while !stop
      invariant Partitions(r, total) && |l.order| <= |r.order|
      invariant !stop ==> FullPasses(l, n, passes) == Open(r) && orders == []
      invariant stop ==> Subdivided(l, n, passes, orders, r)
      decreases (if stop then 0 else 1), |total| - |r.order|
    {
      var size := |r.order|;
      ghost var m := r;
      var expand;
      r, expand := FullPass(r, total);
      FullPassesStep(l, n, passes, m, r, expand);
      passes := passes + 1;
      if |r.order| >= n || |r.order| == size {
        stop := true;
      } else if |r.order| + |expand| * 3 > n {
        ghost var closed := r;
        r, orders := PartialExpansion(r, expand, n, total);
        assert FullPasses(l, n, passes) == Closed(closed, expand, true);
        stop := true;
      }
      PartitionsBound(r, total);
    }
  }
}
