/** The parts of ORBextractor (src/ORBextractor.cpp) that decide how many points survive: the
    FAST threshold clamping and decision tables its constructor fills, the per-level quotas, and
    its own RetainBestN. */
module OrbExtractor {
  import opened KeyPoints
  import Sorting
  import Retention

  function Min(a: int, b: int): int { if a <= b then a else b }
  function Max(a: int, b: int): int { if a >= b then a else b }

  /** iniThFAST = std::min(255, std::max(0, iniThFAST)): a usable FAST threshold, and any
      threshold already in range is kept as given. */
  function ClampInitial(ini: int): (t: int)
    ensures 0 <= t <= 255
    ensures 0 <= ini <= 255 ==> t == ini
    ensures ini < 0 ==> t == 0
    ensures ini > 255 ==> t == 255
  {
    Min(255, Max(0, ini))
  }

  /** minThFAST = std::min(iniThFAST, std::max(0, minThFAST)): the fallback threshold never
      exceeds the (clamped) initial one and is never negative. */
  function ClampMinimum(ini: int, min: int): (t: int)
    ensures ini >= 0 ==> 0 <= t <= ini
    ensures 0 <= min <= ini ==> t == min
    ensures min > ini >= 0 ==> t == ini
  {
    Min(ini, Max(0, min))
  }

  /** The decision of one table entry for the intensity difference v against threshold th:
      1 when v lies below -th (darker), 2 when above th (brighter), 0 otherwise. This is the
      one-line form of the table the constructor keeps commented out. */
  function Code(v: int, th: int): int {
    if v < -th then 1 else if v > th then 2 else 0
  }

  /** Every decision of the initial table is also a decision of the minimum table: lowering
      the threshold only turns undecided entries into decided ones. */
  lemma MinTableRefines(v: int, ini: int, min: int)
    requires 0 <= min <= ini
    ensures Code(v, ini) != 0 ==> Code(v, min) == Code(v, ini)
    ensures Code(v, min) == 0 ==> Code(v, ini) == 0
  {
  }

  /** The table loop of the constructor: for i in [0, 512) with v = i - 255, the initial
      table gets the initial threshold's decision and the minimum table the nested test. */
  method FillTables(tabInit: array<int>, tabMin: array<int>, ini: int, min: int)
    requires tabInit.Length == 512 && tabMin.Length == 512 && tabInit != tabMin
    requires 0 <= min <= ini
    modifies tabInit, tabMin
    ensures forall i :: 0 <= i < 512 ==> tabInit[i] == Code(i - 255, ini)
    ensures forall i :: 0 <= i < 512 ==> tabMin[i] == Code(i - 255, min)
  {
    for i := 0 to 512
      invariant forall j :: 0 <= j < i ==> tabInit[j] == Code(j - 255, ini)
      invariant forall j :: 0 <= j < i ==> tabMin[j] == Code(j - 255, min)
    {
      var v := i - 255;
      if v < -ini {
        tabInit[i] := 1;
        tabMin[i] := 1;
      } else if v > ini {
        tabInit[i] := 2;
        tabMin[i] := 2;
      } else {
        tabInit[i] := 0;
        if v < -min {
          tabMin[i] := 1;
        } else if v > min {
          tabMin[i] := 2;
        } else {
          tabMin[i] := 0;
        }
      }
    }
  }

  /** The sum of a list of quotas. */
  function Sum(s: seq<int>): int {
    if s == [] then 0 else Sum(s[..|s| - 1]) + s[|s| - 1]
  }

  /** The quota loop of the constructor. rounded holds cvRound of the geometric series of
      desired counts for levels 0 .. nlevels - 2; the last level receives what remains of
      nfeatures, and nothing when the earlier levels already use it all up. The quotas
      therefore add up to nfeatures unless the rounded earlier levels overshoot it. */
  method LevelQuotas(nfeatures: int, rounded: seq<int>) returns (q: seq<int>)
    ensures |q| == |rounded| + 1 && q[..|rounded|] == rounded
    ensures q[|rounded|] >= 0
    ensures Sum(rounded) <= nfeatures ==> q[|rounded|] == nfeatures - Sum(rounded)
    ensures Sum(q) == Max(nfeatures, Sum(rounded))
  {
    q := [];
    var sumFeatures := 0;
    for i := 0 to |rounded|
      invariant q == rounded[..i] && sumFeatures == Sum(q)
    {
      q := q + [rounded[i]];
      sumFeatures := sumFeatures + rounded[i];
      assert q[..|q| - 1] == rounded[..i];
    }
    assert q == rounded;
    q := q + [Max(nfeatures - sumFeatures, 0)];
    assert q[..|q| - 1] == rounded;
  }

  /** The constructor's state as far as this model follows it. */
  class Extractor {
    var nfeatures: int
    var nlevels: int
    var iniThFast: int
    var minThFast: int
    const tabInit: array<int>
    const tabMin: array<int>
    var featuresPerLevel: seq<int>

    /** The two decision tables have 512 entries each and are separate arrays. */
    ghost predicate Valid()
      reads this
    {
      tabInit.Length == 512 && tabMin.Length == 512 && tabInit != tabMin
    }

    /** ORBextractor::ORBextractor. rounded stands for the cvRound values of the float
        schedule nfeatures * (1 - 1/scale) / (1 - (1/scale)^nlevels) * (1/scale)^i for the
        first nlevels - 1 levels; the last entry of nfeaturesPerLevelVec is written at
        nlevels - 1, so nlevels must be at least 1. */
    constructor (nfeatures: int, nlevels: int, ini: int, min: int, rounded: seq<int>)
      requires nlevels >= 1 && |rounded| == nlevels - 1
      ensures Valid() && fresh(tabInit) && fresh(tabMin)
      ensures this.nfeatures == nfeatures && this.nlevels == nlevels
      ensures iniThFast == ClampInitial(ini) && minThFast == ClampMinimum(iniThFast, min)
      ensures 0 <= minThFast <= iniThFast <= 255
      ensures forall i :: 0 <= i < 512 ==> tabInit[i] == Code(i - 255, iniThFast)
      ensures forall i :: 0 <= i < 512 ==> tabMin[i] == Code(i - 255, minThFast)
      ensures |featuresPerLevel| == nlevels && featuresPerLevel[..nlevels - 1] == rounded
      ensures featuresPerLevel[nlevels - 1] == Max(nfeatures - Sum(rounded), 0)
    {
      this.nfeatures := nfeatures;
      this.nlevels := nlevels;
      var i := ClampInitial(ini);
      iniThFast := i;
      minThFast := ClampMinimum(i, min);
      tabInit := new int[512];
      tabMin := new int[512];
      new;
      FillTables(tabInit, tabMin, iniThFast, minThFast);
      featuresPerLevel := LevelQuotas(nfeatures, rounded);
    }
  }

  /** ORBextractor::RetainBestN: std::sort by descending response, then resize(N). The test
      N >= kpts.size() is unsigned, so a negative N also leaves the points as they are. */
  method RetainBestN(kpts: seq<KeyPoint>, n: int) returns (r: seq<KeyPoint>)
    ensures n < 0 || |kpts| <= n ==> r == kpts
    ensures 0 <= n < |kpts| ==> |r| == n && ResponseDescending(r)
    ensures multiset(r) <= multiset(kpts)
    ensures Dominates(r, multiset(kpts) - multiset(r))
  {
    if n < 0 || |kpts| <= n {
      return kpts;
    }
    var a := new KeyPoint[|kpts|](i requires 0 <= i < |kpts| => kpts[i]);
    assert a[..] == kpts;
    Sorting.SelectLargest(a, Response, a.Length);
    ghost var s := a[..];
    assert Sorting.LargestFirst(s, Response, n);
    r := a[..n];
    Retention.KeepFrontDominates(s, n);
  }

  /** Keeping the best single point, as the older quadtree does for every node: a point of the
      node whose response no other point of the node exceeds. */
  lemma BestOfNode(kpts: seq<KeyPoint>, r: seq<KeyPoint>)
    requires |r| == 1
    requires multiset(r) <= multiset(kpts) && Dominates(r, multiset(kpts) - multiset(r))
    ensures r[0] in kpts
    ensures forall d :: d in kpts ==> d.response <= r[0].response
  {
    assert r[0] in multiset(r);
    forall d | d in kpts && d != r[0] ensures d.response <= r[0].response {
      assert d in multiset(kpts) - multiset(r);
    }
  }
}
