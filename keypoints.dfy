/** Keypoints and the collection vocabulary shared by every distribution strategy:
    selections of positions, gathering, bucketing by an index function, response order. */
module KeyPoints {

  /** A FAST corner candidate: pixel position and cornerness response, all integers. The
      engine's responses are floats; the dispatcher's sort and the SSC and VSSC scores take
      their integer part, while the retention and representative picks compare the floats. */
  datatype KeyPoint = KeyPoint(x: int, y: int, response: int)

  /** An integer pixel position, OpenCV's Point2i. */
  datatype Point = Point(x: int, y: int)

  function Response(k: KeyPoint): int { k.response }

  /** idx names positions below n in strictly increasing order: a subsequence. */
  ghost predicate IsSelection(idx: seq<nat>, n: nat) {
    && (forall k :: 0 <= k < |idx| ==> idx[k] < n)
    && (forall k, l :: 0 <= k < l < |idx| ==> idx[k] < idx[l])
  }

  /** The points of s at the positions idx, in the order of idx. */
  function Gather(s: seq<KeyPoint>, idx: seq<nat>): seq<KeyPoint>
    requires forall k :: 0 <= k < |idx| ==> idx[k] < |s|
  {
    seq(|idx|, k requires 0 <= k < |idx| => s[idx[k]])
  }

  /** The final copy loop of every suppression strategy: reskpts.emplace_back(kpts[resultIndices[i]]). */
  method GatherKeypoints(s: seq<KeyPoint>, idx: seq<nat>) returns (r: seq<KeyPoint>)
    requires forall k :: 0 <= k < |idx| ==> idx[k] < |s|
    ensures |r| == |idx|
    ensures forall k :: 0 <= k < |r| ==> r[k] == s[idx[k]]
  {
    r := [];
    var i := 0;
    while i < |idx|
      invariant 0 <= i <= |idx|
      invariant r == Gather(s, idx[..i])
    {
      r := r + [s[idx[i]]];
      i := i + 1;
    }
    assert idx[..i] == idx;
  }

  /** Gathering the positions of a selection keeps a sub-multiset of the points. */
  lemma {:induction false} GatherSubMultiset(s: seq<KeyPoint>, idx: seq<nat>)
    requires IsSelection(idx, |s|)
    ensures multiset(Gather(s, idx)) <= multiset(s)
    decreases |idx|
  {
    if idx != [] {
      var last := idx[|idx| - 1];
      var pre := idx[..|idx| - 1];
      var t := s[..last];
      assert IsSelection(pre, |t|) by {
        forall k | 0 <= k < |pre| ensures pre[k] < |t| {
          assert pre[k] < last;
        }
      }
      GatherSubMultiset(t, pre);
      assert Gather(s, idx) == Gather(t, pre) + [s[last]];
      assert s[..last + 1] == t + [s[last]];
      assert s == s[..last + 1] + s[last + 1..];
    }
  }

  /** The points of s whose index under f is c, in their original order. */
  function Bucket(s: seq<KeyPoint>, f: KeyPoint -> int, c: int): seq<KeyPoint>
    decreases |s|
  {
    if s == [] then []
    else Bucket(s[..|s| - 1], f, c) + (if f(s[|s| - 1]) == c then [s[|s| - 1]] else [])
  }

  /** Every point of a bucket has the bucket's index and comes from s; the bucket is
      as large as the number of such points. */
  lemma {:induction false} BucketMembers(s: seq<KeyPoint>, f: KeyPoint -> int, c: int)
    ensures forall k :: k in Bucket(s, f, c) ==> k in s && f(k) == c
    ensures forall k :: k in s && f(k) == c ==> k in Bucket(s, f, c)
    ensures multiset(Bucket(s, f, c)) <= multiset(s)
    decreases |s|
  {
    if s != [] {
      var t := s[..|s| - 1];
      assert s == t + [s[|s| - 1]];
      BucketMembers(t, f, c);
    }
  }

  /** Bucketing distributes over concatenation. */
  lemma {:induction false} BucketAppend(a: seq<KeyPoint>, b: seq<KeyPoint>, f: KeyPoint -> int, c: int)
    ensures Bucket(a + b, f, c) == Bucket(a, f, c) + Bucket(b, f, c)
    decreases |b|
  {
    if b == [] {
      assert a + b == a;
    } else {
      var b' := b[..|b| - 1];
      assert (a + b)[..|a + b| - 1] == a + b';
      BucketAppend(a, b', f, c);
    }
  }

  /** A sequence whose points all have index c is its own bucket c and has no other bucket. */
  lemma {:induction false} BucketUniform(s: seq<KeyPoint>, f: KeyPoint -> int, c: int, c': int)
    requires forall k :: k in s ==> f(k) == c
    ensures Bucket(s, f, c) == s
    ensures c' != c ==> Bucket(s, f, c') == []
    decreases |s|
  {
    if s != [] {
      var t := s[..|s| - 1];
      assert s == t + [s[|s| - 1]];
      BucketUniform(t, f, c, c');
    }
  }

  /** The multiset union of buckets 0 .. m-1. */
  ghost function SumBuckets(s: seq<KeyPoint>, f: KeyPoint -> int, m: nat): multiset<KeyPoint>
  {
    if m == 0 then multiset{} else SumBuckets(s, f, m - 1) + multiset(Bucket(s, f, m - 1))
  }

  /** A point filed under one of the first m buckets adds itself to their union. */
  lemma {:induction false} SumBucketsSnoc(t: seq<KeyPoint>, k: KeyPoint, f: KeyPoint -> int, m: nat)
    requires 0 <= f(k) < m
    ensures SumBuckets(t + [k], f, m) == SumBuckets(t, f, m) + multiset{k}
  {
    if f(k) == m - 1 {
      SumBucketsSkip(t, k, f, m - 1);
      BucketSnoc(t, k, f, m - 1);
      AddRight(SumBuckets(t, f, m - 1), multiset(Bucket(t, f, m - 1)), k);
    } else {
      SumBucketsSnoc(t, k, f, m - 1);
      BucketSnoc(t, k, f, m - 1);
      AddLeft(SumBuckets(t, f, m - 1), multiset(Bucket(t, f, m - 1)), k);
    }
  }

  lemma AddRight(a: multiset<KeyPoint>, b: multiset<KeyPoint>, k: KeyPoint)
    ensures a + (b + multiset{k}) == (a + b) + multiset{k}
  {
  }

  lemma AddLeft(a: multiset<KeyPoint>, b: multiset<KeyPoint>, k: KeyPoint)
    ensures (a + multiset{k}) + b == (a + b) + multiset{k}
  {
  }

  /** A point filed under none of the first m buckets leaves their union alone. */
  lemma {:induction false} SumBucketsSkip(t: seq<KeyPoint>, k: KeyPoint, f: KeyPoint -> int, m: nat)
    requires !(0 <= f(k) < m)
    ensures SumBuckets(t + [k], f, m) == SumBuckets(t, f, m)
  {
    if m > 0 {
      SumBucketsSkip(t, k, f, m - 1);
      BucketSnoc(t, k, f, m - 1);
    }
  }

  lemma BucketSnoc(t: seq<KeyPoint>, k: KeyPoint, f: KeyPoint -> int, c: int)
    ensures f(k) == c ==> multiset(Bucket(t + [k], f, c)) == multiset(Bucket(t, f, c)) + multiset{k}
    ensures f(k) != c ==> Bucket(t + [k], f, c) == Bucket(t, f, c)
  {
    assert (t + [k])[..|t + [k]| - 1] == t;
  }

  /** When every index lies in [0, m), the buckets 0 .. m-1 partition s: each point lands in
      exactly one bucket and nothing is lost or duplicated. */
  lemma {:induction false} BucketsPartition(s: seq<KeyPoint>, f: KeyPoint -> int, m: nat)
    requires forall k :: k in s ==> 0 <= f(k) < m
    ensures SumBuckets(s, f, m) == multiset(s)
    decreases |s|
  {
    if s == [] {
      EmptyBuckets(f, m);
    } else {
      var t := s[..|s| - 1];
      var k := s[|s| - 1];
      assert s == t + [k];
      BucketsPartition(t, f, m);
      SumBucketsSnoc(t, k, f, m);
    }
  }

  lemma {:induction false} EmptyBuckets(f: KeyPoint -> int, m: nat)
    ensures SumBuckets([], f, m) == multiset{}
  {
    if m > 0 { EmptyBuckets(f, m - 1); }
  }

  /** Every kept point responds at least as strongly as every dropped point. */
  ghost predicate Dominates(kept: seq<KeyPoint>, dropped: multiset<KeyPoint>) {
    forall k, d :: k in kept && d in dropped ==> k.response >= d.response
  }

  /** s is ordered by non-increasing response. */
  ghost predicate ResponseDescending(s: seq<KeyPoint>) {
    forall i, j :: 0 <= i < j < |s| ==> s[i].response >= s[j].response
  }

  /** m is the position of the first point of maximal response in s. */
  ghost predicate IsFirstMax(s: seq<KeyPoint>, m: nat) {
    && m < |s|
    && (forall j :: 0 <= j < |s| ==> s[j].response <= s[m].response)
    && (forall j :: 0 <= j < m ==> s[j].response < s[m].response)
  }

  /** The multiset union of a sequence of point lists. */
  ghost function Union(cells: seq<seq<KeyPoint>>): multiset<KeyPoint> {
    if cells == [] then multiset{} else Union(cells[..|cells| - 1]) + multiset(cells[|cells| - 1])
  }

  lemma {:induction false} UnionAppend(a: seq<seq<KeyPoint>>, b: seq<seq<KeyPoint>>)
    ensures Union(a + b) == Union(a) + Union(b)
    decreases |b|
  {
    if b == [] {
      assert a + b == a;
    } else {
      assert (a + b)[..|a + b| - 1] == a + b[..|b| - 1];
      UnionAppend(a, b[..|b| - 1]);
    }
  }

  /** A list of non-empty cells has no more cells than points. */
  lemma {:induction false} UnionSize(cells: seq<seq<KeyPoint>>)
    requires forall i :: 0 <= i < |cells| ==> cells[i] != []
    ensures |cells| <= |Union(cells)|
    decreases |cells|
  {
    if cells != [] {
      UnionSize(cells[..|cells| - 1]);
    }
  }

  /** The point lists of cells appended in cell order, as kpts.insert(kpts.end(), ...) does. */
  function Concat(cells: seq<seq<KeyPoint>>): seq<KeyPoint> {
    if cells == [] then [] else Concat(cells[..|cells| - 1]) + cells[|cells| - 1]
  }

  /** Appending the cells keeps exactly the points of the cells. */
  lemma {:induction false} ConcatUnion(cells: seq<seq<KeyPoint>>)
    ensures multiset(Concat(cells)) == Union(cells)
    decreases |cells|
  {
    if cells != [] {
      ConcatUnion(cells[..|cells| - 1]);
    }
  }

  /** With at most q points per cell, the appended cells hold at most |cells| * q points. */
  lemma {:induction false} ConcatLength(cells: seq<seq<KeyPoint>>, q: nat)
    requires forall i :: 0 <= i < |cells| ==> |cells[i]| <= q
    ensures |Concat(cells)| <= |cells| * q
    decreases |cells|
  {
    if cells != [] {
      var pre := cells[..|cells| - 1];
      ConcatLength(pre, q);
      assert |cells| * q == |pre| * q + q;
    }
  }

  /** Buckets 0 .. m-1 of s, as a list of cells. */
  ghost function Buckets(s: seq<KeyPoint>, f: KeyPoint -> int, m: nat): seq<seq<KeyPoint>> {
    seq(m, i requires 0 <= i < m => Bucket(s, f, i))
  }

  lemma {:induction false} UnionBuckets(s: seq<KeyPoint>, f: KeyPoint -> int, m: nat)
    ensures Union(Buckets(s, f, m)) == SumBuckets(s, f, m)
  {
    if m > 0 {
      var b := Buckets(s, f, m);
      assert b[..m - 1] == Buckets(s, f, m - 1);
      assert Union(b) == Union(b[..m - 1]) + multiset(Bucket(s, f, m - 1));
      UnionBuckets(s, f, m - 1);
    }
  }

  /** Cells that are pointwise sub-multisets have a sub-multiset union. */
  lemma {:induction false} UnionMono(a: seq<seq<KeyPoint>>, b: seq<seq<KeyPoint>>)
    requires |a| == |b| && forall i :: 0 <= i < |a| ==> multiset(a[i]) <= multiset(b[i])
    ensures Union(a) <= Union(b)
    decreases |a|
  {
    if a != [] {
      UnionMono(a[..|a| - 1], b[..|b| - 1]);
    }
  }
}
