/** Top-N selection by response: the distribution engine's RetainBestN and the NAIVE strategy
    built on it (src/Distribution.cpp). */
module Retention {
  import opened KeyPoints
  import Sorting

  /** std::nth_element by descending response followed by resize(N). The comparison
      kpts.size() <= N converts N to an unsigned size, so a negative N keeps everything. */
  method RetainBestN(kpts: seq<KeyPoint>, n: int) returns (r: seq<KeyPoint>)
    ensures n < 0 || |kpts| <= n ==> r == kpts
    ensures 0 <= n < |kpts| ==> |r| == n
    ensures multiset(r) <= multiset(kpts)
    ensures Dominates(r, multiset(kpts) - multiset(r))
  {
    if n < 0 || |kpts| <= n {
      return kpts;
    }
    var a := new KeyPoint[|kpts|](i requires 0 <= i < |kpts| => kpts[i]);
    assert a[..] == kpts;
    Sorting.SelectLargest(a, Response, n);
    r := a[..n];
    KeepFrontDominates(a[..], n);
  }

  /** Splitting a largest-first array after position n: the front is a sub-multiset that
      dominates the back. */
  lemma KeepFrontDominates(s: seq<KeyPoint>, n: nat)
    requires n <= |s|
    requires Sorting.LargestFirst(s, Response, n)
    ensures multiset(s[..n]) <= multiset(s)
    ensures multiset(s) - multiset(s[..n]) == multiset(s[n..])
    ensures Dominates(s[..n], multiset(s) - multiset(s[..n]))
  {
    assert s == s[..n] + s[n..];
    FrontOverBack(s, n);
  }

  /** In a largest-first array, every point before position n outresponds every point after. */
  lemma FrontOverBack(s: seq<KeyPoint>, n: nat)
    requires n <= |s|
    requires Sorting.LargestFirst(s, Response, n)
    ensures Dominates(s[..n], multiset(s[n..]))
  {
    forall k, d | k in s[..n] && d in multiset(s[n..]) ensures k.response >= d.response {
      var i :| 0 <= i < n && s[i] == k;
      var j :| n <= j < |s| && s[j] == d by {
        assert d in s[n..];
        var j' :| 0 <= j' < |s[n..]| && s[n..][j'] == d;
        assert s[n + j'] == d;
      }
      assert Response(s[i]) >= Response(s[j]);
    }
  }

  /** DistributeKeypointsNaive: the N strongest points, regardless of position. */
  method DistributeNaive(kpts: seq<KeyPoint>, n: int) returns (r: seq<KeyPoint>)
    ensures |r| == if n < 0 || |kpts| <= n then |kpts| else n
    ensures multiset(r) <= multiset(kpts)
    ensures forall k, d :: k in r && d in multiset(kpts) - multiset(r) ==> k.response >= d.response
  {
    r := RetainBestN(kpts, n);
  }
}
