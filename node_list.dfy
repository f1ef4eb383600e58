/** The std::list<ExtractorNode> both quadtree strategies mutate, as an arena plus an order.
    Every node ever created keeps its arena position (its id) for the whole run, so an id
    plays the part of the pointers (rootVec, nodesToExpand) and of the saved list iterator
    (the `lit` field) that the source keeps across push_front and erase. */
module NodeLists {
  import opened KeyPoints
  import opened ExtractorNodes

  /** arena: every node created so far; order: the list, front first, as arena ids. */
  datatype NodeList = NodeList(arena: seq<Node>, order: seq<nat>)

  /** Every listed id names an arena node and no node is listed twice. */
  ghost predicate Valid(l: NodeList) {
    && (forall p :: 0 <= p < |l.order| ==> l.order[p] < |l.arena|)
    && (forall id :: id in l.order ==> id < |l.arena|)
    && Distinct(l.order)
  }

  /** No id occurs twice. */
  ghost predicate Distinct(s: seq<nat>) {
    forall p, q :: 0 <= p < q < |s| ==> s[p] != s[q]
  }

  /** The node at list position p. */
  function At(l: NodeList, p: nat): Node
    requires Valid(l) && p < |l.order|
  {
    l.arena[l.order[p]]
  }

  /** The points of the listed nodes, front to back: the abstract value of the list. */
  ghost function Cells(l: NodeList): seq<seq<KeyPoint>>
    requires Valid(l)
  {
    seq(|l.order|, p requires 0 <= p < |l.order| => l.arena[l.order[p]].kpts)
  }

  /** The points of every arena node, listed or not, by id. */
  ghost function Contents(l: NodeList): seq<seq<KeyPoint>> {
    seq(|l.arena|, i requires 0 <= i < |l.arena| => l.arena[i].kpts)
  }

  /** The empty list. */
  function Empty(): (r: NodeList)
    ensures Valid(r) && Cells(r) == []
  {
    NodeList([], [])
  }

  /** push_back: the new node becomes the last of the list. */
  method PushBack(l: NodeList, n: Node) returns (r: NodeList)
    requires Valid(l)
    ensures Valid(r) && Cells(r) == Cells(l) + [n.kpts]
    ensures r.arena == l.arena + [n] && r.order == l.order + [|l.arena|]
  {
    r := NodeList(l.arena + [n], l.order + [|l.arena|]);
    assert forall p :: 0 <= p < |l.order| ==> r.order[p] == l.order[p];
    assert Cells(r) == Cells(l) + [n.kpts] by {
      forall p | 0 <= p < |l.order| ensures Cells(r)[p] == Cells(l)[p] {
        assert r.order[p] == l.order[p] < |l.arena|;
      }
    }
  }

  /** push_front: the new node becomes the first of the list; every other node keeps its id. */
  method PushFront(l: NodeList, n: Node) returns (r: NodeList)
    requires Valid(l)
    ensures Valid(r) && Cells(r) == [n.kpts] + Cells(l)
    ensures r.arena == l.arena + [n] && r.order == [|l.arena|] + l.order
  {
    r := NodeList(l.arena + [n], [|l.arena|] + l.order);
    assert forall p :: 0 < p < |r.order| ==> r.order[p] == l.order[p - 1];
    assert Cells(r) == [n.kpts] + Cells(l) by {
      forall p | 0 < p < |r.order| ensures Cells(r)[p] == Cells(l)[p - 1] {
        assert r.order[p] == l.order[p - 1] < |l.arena|;
      }
    }
  }

  /** erase(iterator) at list position p: the node leaves the list, the others keep their order,
      and exactly its points leave the union. */
  method EraseAt(l: NodeList, p: nat) returns (r: NodeList)
    requires Valid(l) && p < |l.order|
    ensures Valid(r) && Cells(r) == Cells(l)[..p] + Cells(l)[p + 1..]
    ensures r.arena == l.arena && |r.order| == |l.order| - 1
    ensures forall q :: 0 <= q < p ==> r.order[q] == l.order[q]
    ensures forall q :: p <= q < |r.order| ==> r.order[q] == l.order[q + 1]
    ensures forall id :: id in r.order <==> id in l.order && id != l.order[p]
    ensures Union(Cells(r)) + multiset(At(l, p).kpts) == Union(Cells(l))
    ensures r.order == l.order[..p] + l.order[p + 1..]
  {
    r := NodeList(l.arena, l.order[..p] + l.order[p + 1..]);
    SliceOut(l.order, p);
    assert Cells(r) == Cells(l)[..p] + Cells(l)[p + 1..] by {
      forall q | 0 <= q < |r.order| ensures Cells(r)[q] == (Cells(l)[..p] + Cells(l)[p + 1..])[q] {
        if q < p { assert r.order[q] == l.order[q]; } else { assert r.order[q] == l.order[q + 1]; }
      }
    }
    UnionRemove(Cells(l), p);
  }

  /** Taking position p out of a list of distinct ids shifts the later ids down by one and
      removes exactly the id at p. */
  lemma SliceOut(s: seq<nat>, p: nat)
    requires p < |s| && Distinct(s)
    ensures var t := s[..p] + s[p + 1..];
      && |t| == |s| - 1
      && (forall q :: 0 <= q < p ==> t[q] == s[q])
      && (forall q :: p <= q < |t| ==> t[q] == s[q + 1])
      && (forall x :: x in t <==> x in s && x != s[p])
      && Distinct(t)
  {
    var t := s[..p] + s[p + 1..];
    assert s == s[..p] + [s[p]] + s[p + 1..];
    forall x | x in t ensures x != s[p] {
      var q :| 0 <= q < |t| && t[q] == x;
      if q < p { assert t[q] == s[q]; } else { assert t[q] == s[q + 1]; }
    }
    forall a, b | 0 <= a < b < |t| ensures t[a] != t[b] {
      var a' := if a < p then a else a + 1;
      var b' := if b < p then b else b + 1;
      assert t[a] == s[a'] && t[b] == s[b'];
    }
  }

  /** current->leaf = true for the node at list position p; nothing else changes. */
  method SetLeaf(l: NodeList, p: nat) returns (r: NodeList)
    requires Valid(l) && p < |l.order|
    ensures Valid(r) && r.order == l.order && Cells(r) == Cells(l) && |r.arena| == |l.arena|
    ensures At(r, p) == At(l, p).(leaf := true)
    ensures forall q :: 0 <= q < |l.order| && q != p ==> At(r, q) == At(l, q)
    ensures Contents(r) == Contents(l)
    ensures r.arena == l.arena[l.order[p] := At(l, p).(leaf := true)]
  {
    r := NodeList(l.arena[l.order[p] := At(l, p).(leaf := true)], l.order);
    assert forall i :: 0 <= i < |l.arena| ==> Contents(r)[i] == Contents(l)[i];
    assert forall q :: 0 <= q < |l.order| ==> Cells(r)[q] == Cells(l)[q];
  }

  /** The list position of a listed id. */
  function PositionOf(order: seq<nat>, id: nat): (p: nat)
    requires id in order
    ensures p < |order| && order[p] == id
  {
    if order[0] == id then 0 else 1 + PositionOf(order[1..], id)
  }

  /** The ids of s other than x, in order. */
  function Remove(s: seq<nat>, x: nat): seq<nat>
    decreases |s|
  {
    if s == [] then [] else (if s[0] == x then [] else [s[0]]) + Remove(s[1..], x)
  }

  /** Removing an id that does not occur changes nothing. */
  lemma {:induction false} RemoveAbsent(s: seq<nat>, x: nat)
    requires x !in s
    ensures Remove(s, x) == s
    decreases |s|
  {
    if s != [] {
      assert x !in s[1..];
      RemoveAbsent(s[1..], x);
    }
  }

  /** In a list of distinct ids, removing the id at position p cuts out exactly that position. */
  lemma {:induction false} RemoveAt(s: seq<nat>, p: nat)
    requires Distinct(s) && p < |s|
    ensures Remove(s, s[p]) == s[..p] + s[p + 1..]
    decreases p
  {
    var t := s[1..];
    assert Distinct(t) by {
      forall a, b | 0 <= a < b < |t| ensures t[a] != t[b] {
        assert t[a] == s[a + 1] && t[b] == s[b + 1];
      }
    }
    if p == 0 {
      assert s[0] !in t by {
        forall a | 0 <= a < |t| ensures t[a] != s[0] {
          assert t[a] == s[a + 1];
        }
      }
      RemoveAbsent(t, s[0]);
    } else {
      assert t[p - 1] == s[p] && s[0] != s[p];
      RemoveAt(t, p - 1);
      assert s[..p] == [s[0]] + t[..p - 1];
      assert s[p + 1..] == t[p..];
    }
  }

  /** erase(node->lit): removes the node with the given id through its saved iterator. */
  method Erase(l: NodeList, id: nat) returns (r: NodeList)
    requires Valid(l) && id in l.order
    ensures Valid(r) && r.arena == l.arena && |r.order| == |l.order| - 1
    ensures forall i :: i in r.order <==> i in l.order && i != id
    ensures Union(Cells(r)) + multiset(l.arena[id].kpts) == Union(Cells(l))
    ensures r.order == Remove(l.order, id)
  {
    var p := PositionOf(l.order, id);
    r := EraseAt(l, p);
    RemoveAt(l.order, p);
  }

  /** Replaces the node with the given id (a write through a pointer into the list). */
  method Update(l: NodeList, id: nat, n: Node) returns (r: NodeList)
    requires Valid(l) && id < |l.arena|
    ensures Valid(r) && r.order == l.order && |r.arena| == |l.arena|
    ensures r.arena[id] == n && forall i :: 0 <= i < |l.arena| && i != id ==> r.arena[i] == l.arena[i]
  {
    r := NodeList(l.arena[id := n], l.order);
  }

  /** The nodes of the list partition the multiset total: every listed node owns at least one
      point, a leaf owns exactly one, and no point is lost or duplicated. */
  ghost predicate Partitions(l: NodeList, total: multiset<KeyPoint>) {
    && Valid(l)
    && (forall id :: id in l.order ==> l.arena[id].kpts != [])
    && (forall id :: id in l.order ==> l.arena[id].leaf ==> |l.arena[id].kpts| == 1)
    && Union(Cells(l)) == total
  }

  /** A partitioning list never has more nodes than points. */
  lemma PartitionsBound(l: NodeList, total: multiset<KeyPoint>)
    requires Partitions(l, total)
    ensures |l.order| <= |total|
  {
    assert forall i :: 0 <= i < |Cells(l)| ==> Cells(l)[i] == l.arena[l.order[i]].kpts;
    UnionSize(Cells(l));
  }

  lemma UnionCons(c: seq<KeyPoint>, rest: seq<seq<KeyPoint>>)
    ensures Union([c] + rest) == multiset(c) + Union(rest)
  {
    UnionAppend([c], rest);
    assert Union([c]) == Union([]) + multiset(c);
  }

  /** Taking cell p out of a list of cells takes exactly its points out of the union. */
  lemma UnionRemove(cells: seq<seq<KeyPoint>>, p: nat)
    requires p < |cells|
    ensures Union(cells[..p] + cells[p + 1..]) + multiset(cells[p]) == Union(cells)
  {
    Reassemble(cells, p);
    UnionSplit(cells[..p], cells[p], cells[p + 1..]);
  }

  lemma Reassemble<T>(s: seq<T>, p: nat)
    requires p < |s|
    ensures s == s[..p] + ([s[p]] + s[p + 1..])
  {
  }

  lemma UnionSplit(a: seq<seq<KeyPoint>>, x: seq<KeyPoint>, b: seq<seq<KeyPoint>>)
    ensures Union(a + b) + multiset(x) == Union(a + ([x] + b))
  {
    UnionAppend(a, [x] + b);
    UnionCons(x, b);
    UnionAppend(a, b);
  }
}
