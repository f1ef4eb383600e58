/** The greedy suppression shared by the ANMS and SSC strategies of src/Distribution.cpp. One
    trial walks the points in (response-sorted) order and keeps a point unless an earlier kept
    point already suppresses it; what "suppresses" means is the trial's rule. */
module Suppression {
  import opened KeyPoints

  /** The region an SSC coverage grid spans: cols x rows pixels whose origin is (ox, oy). */
  datatype Frame = Frame(cols: int, rows: int, ox: int, oy: int)

  /** What a kept point suppresses in one trial of width (or radius) w.
      Disc: the k-d tree radius query, squared distance below radius * radius (or at most it).
      Square: the range tree query, the square of half-edge `half` clamped at 0.
      Cover: the boolean SSC grid, the 5 x 5 cells around the kept point's cell.
      SoftCover: the Soft-SSC grid, the same cells, but only a kept point whose response
      reaches the candidate's response plus the threshold suppresses it. */
  datatype Rule =
    | Disc(radius: int, inclusive: bool)
    | Square(half: int, inclusive: bool)
    | Cover(frame: Frame, width: int)
    | SoftCover(frame: Frame, width: int, threshold: real)

  /** The point lies in the frame, borders included, so its cell is inside the grid. */
  predicate InFrame(f: Frame, k: KeyPoint) {
    0 <= k.x - f.ox <= f.cols && 0 <= k.y - f.oy <= f.rows
  }

  /** (int)((y - oy) / (width / 2.0)): the grid row of a point, exact in integers. */
  function CellRow(f: Frame, w: int, k: KeyPoint): int
    requires w >= 1
  {
    (2 * (k.y - f.oy)) / w
  }

  /** (int)((x - ox) / (width / 2.0)): the grid column of a point. */
  function CellCol(f: Frame, w: int, k: KeyPoint): int
    requires w >= 1
  {
    (2 * (k.x - f.ox)) / w
  }

  /** floor(rows / (width / 2.0)): the last grid row (the grid has one more row). */
  function LastRow(f: Frame, w: int): int
    requires w >= 1
  {
    (2 * f.rows) / w
  }

  /** floor(cols / (width / 2.0)): the last grid column. */
  function LastCol(f: Frame, w: int): int
    requires w >= 1
  {
    (2 * f.cols) / w
  }

  /** Cell (r', c') lies within `reach` cells of (r, c) in both directions. The SSC reach is
      (int)(width / (width / 2.0)) == 2. */
  predicate InWindow(r: int, c: int, reach: int, r': int, c': int) {
    r - reach <= r' <= r + reach && c - reach <= c' <= c + reach
  }

  /** The kept point a suppresses the candidate b. */
  predicate Blocks(rule: Rule, a: KeyPoint, b: KeyPoint) {
    match rule
    case Disc(radius, inclusive) =>
      var d := (a.x - b.x) * (a.x - b.x) + (a.y - b.y) * (a.y - b.y);
      if inclusive then d <= radius * radius else d < radius * radius
    case Square(half, inclusive) =>
      var lx, hx := Clamp0(a.x - half), a.x + half;
      var ly, hy := Clamp0(a.y - half), a.y + half;
      if inclusive then lx <= b.x <= hx && ly <= b.y <= hy
      else lx < b.x < hx && ly < b.y < hy
    case Cover(f, w) =>
      w >= 1 && InWindow(CellRow(f, w, a), CellCol(f, w, a), 2, CellRow(f, w, b), CellCol(f, w, b))
    case SoftCover(f, w, t) =>
      && w >= 1
      && InWindow(CellRow(f, w, a), CellCol(f, w, a), 2, CellRow(f, w, b), CellCol(f, w, b))
      && a.response as real >= b.response as real + t
  }

  /** if (v < 0) v = 0; */
  function Clamp0(v: int): int { if v < 0 then 0 else v }

  /** Whether the candidate can be kept at all: in Soft-SSC an untouched cell holds -1, so a
      candidate whose response plus the threshold does not exceed -1 is never kept. */
  predicate Admits(rule: Rule, b: KeyPoint) {
    rule.SoftCover? ==> -1.0 < b.response as real + rule.threshold
  }

  /** The rule as the suppression relation of one trial. */
  function Near(rule: Rule): (KeyPoint, KeyPoint) -> bool {
    (a, b) => Blocks(rule, a, b)
  }

  /** The rule's admissibility test. */
  function Admit(rule: Rule): KeyPoint -> bool {
    b => Admits(rule, b)
  }

  /** The positions among the first n that one trial under the rule keeps. */
  ghost function Trial(kpts: seq<KeyPoint>, rule: Rule, n: nat): seq<nat>
    requires n <= |kpts|
  {
    Kept(kpts, Near(rule), Admit(rule), n)
  }

  /** The candidate at position i is kept after the points at positions `kept`: it is
      admissible and no kept point suppresses it. */
  ghost predicate Accepts(kpts: seq<KeyPoint>, near: (KeyPoint, KeyPoint) -> bool, admits: KeyPoint -> bool,
                          kept: seq<nat>, i: nat)
    requires i < |kpts|
  {
    && admits(kpts[i])
    && forall j :: 0 <= j < |kept| && kept[j] < |kpts| ==> !near(kpts[kept[j]], kpts[i])
  }

  /** The positions among the first n that the greedy walk keeps, in increasing order. */
  ghost function Kept(kpts: seq<KeyPoint>, near: (KeyPoint, KeyPoint) -> bool, admits: KeyPoint -> bool,
                      n: nat): seq<nat>
    requires n <= |kpts|
  {
    if n == 0 then []
    else
      var pre := Kept(kpts, near, admits, n - 1);
      if Accepts(kpts, near, admits, pre, n - 1) then pre + [n - 1] else pre
  }

  /** No listed position before i suppresses the point at i. */
  ghost predicate Unopposed(kpts: seq<KeyPoint>, near: (KeyPoint, KeyPoint) -> bool, sel: seq<nat>, i: nat)
    requires i < |kpts| && forall j :: 0 <= j < |sel| ==> sel[j] < |kpts|
  {
    forall j :: 0 <= j < |sel| && sel[j] < i ==> !near(kpts[sel[j]], kpts[i])
  }

  /** A declarative reading of the greedy walk: sel lists positions below n in increasing
      order, and a position is listed exactly when it is admissible and no listed earlier
      position suppresses it. */
  ghost predicate Greedy(kpts: seq<KeyPoint>, near: (KeyPoint, KeyPoint) -> bool, admits: KeyPoint -> bool,
                         sel: seq<nat>, n: nat)
    requires n <= |kpts|
  {
    && IsSelection(sel, n)
    && forall i :: 0 <= i < n ==> (i in sel <==> (admits(kpts[i]) && Unopposed(kpts, near, sel, i)))
  }

  /** The greedy walk satisfies the declarative reading. */
  lemma KeptGreedy(kpts: seq<KeyPoint>, near: (KeyPoint, KeyPoint) -> bool, admits: KeyPoint -> bool, n: nat)
    requires n <= |kpts|
    ensures Greedy(kpts, near, admits, Kept(kpts, near, admits, n), n)
  {
    KeptSelection(kpts, near, admits, n);
    KeptMembership(kpts, near, admits, n);
  }

  /** The walk lists positions below n in increasing order. */
  lemma {:induction false} KeptSelection(kpts: seq<KeyPoint>, near: (KeyPoint, KeyPoint) -> bool,
                                         admits: KeyPoint -> bool, n: nat)
    requires n <= |kpts|
    ensures IsSelection(Kept(kpts, near, admits, n), n)
  {
    if n > 0 {
      KeptSelection(kpts, near, admits, n - 1);
    }
  }

  /** The walk keeps a position exactly when it is admissible and unopposed. */
  lemma {:induction false} KeptMembership(kpts: seq<KeyPoint>, near: (KeyPoint, KeyPoint) -> bool,
                                          admits: KeyPoint -> bool, n: nat)
    requires n <= |kpts|
    ensures IsSelection(Kept(kpts, near, admits, n), n)
    ensures forall i :: 0 <= i < n ==>
      (i in Kept(kpts, near, admits, n) <==> (admits(kpts[i]) && Unopposed(kpts, near, Kept(kpts, near, admits, n), i)))
  {
    KeptSelection(kpts, near, admits, n);
    if n > 0 {
      KeptMembership(kpts, near, admits, n - 1);
      KeptStep(kpts, near, admits, Kept(kpts, near, admits, n - 1), Kept(kpts, near, admits, n), n);
    }
  }

  /** One step of the walk keeps the membership reading: deciding position n - 1 leaves the
      earlier decisions as they were and decides n - 1 by the same rule. */
  lemma KeptStep(kpts: seq<KeyPoint>, near: (KeyPoint, KeyPoint) -> bool, admits: KeyPoint -> bool,
                 pre: seq<nat>, sel: seq<nat>, n: nat)
    requires 0 < n <= |kpts|
    requires IsSelection(pre, n - 1)
    requires forall i :: 0 <= i < n - 1 ==>
      (i in pre <==> (admits(kpts[i]) && Unopposed(kpts, near, pre, i)))
    requires sel == if Accepts(kpts, near, admits, pre, n - 1) then pre + [n - 1] else pre
    ensures forall i :: 0 <= i < n ==>
      (i in sel <==> (admits(kpts[i]) && Unopposed(kpts, near, sel, i)))
  {
    forall i | 0 <= i < n
      ensures i in sel <==> (admits(kpts[i]) && Unopposed(kpts, near, sel, i))
    {
      if i < n - 1 {
        EarlierUnchanged(kpts, near, pre, sel, n, i);
      } else {
        LastDecidedByPre(kpts, near, admits, pre, sel, n);
      }
    }
  }

  /** Appending n - 1 or not leaves the decision of an earlier position as it was. */
  lemma EarlierUnchanged(kpts: seq<KeyPoint>, near: (KeyPoint, KeyPoint) -> bool,
                         pre: seq<nat>, sel: seq<nat>, n: nat, i: nat)
    requires 0 < n <= |kpts| && i < n - 1
    requires IsSelection(pre, n - 1)
    requires sel == pre || sel == pre + [n - 1]
    ensures i in sel <==> i in pre
    ensures Unopposed(kpts, near, sel, i) == Unopposed(kpts, near, pre, i)
  {
    assert forall j :: 0 <= j < |sel| && sel[j] < i ==> j < |pre| && sel[j] == pre[j];
  }

  /** Position n - 1 is listed exactly when the walk accepts it. */
  lemma LastDecidedByPre(kpts: seq<KeyPoint>, near: (KeyPoint, KeyPoint) -> bool, admits: KeyPoint -> bool,
                         pre: seq<nat>, sel: seq<nat>, n: nat)
    requires 0 < n <= |kpts|
    requires IsSelection(pre, n - 1)
    requires sel == if Accepts(kpts, near, admits, pre, n - 1) then pre + [n - 1] else pre
    ensures n - 1 in sel <==> (admits(kpts[n - 1]) && Unopposed(kpts, near, sel, n - 1))
  {
    assert forall j :: 0 <= j < |pre| ==> pre[j] < n - 1 && sel[j] == pre[j];
    assert forall j :: 0 <= j < |sel| && sel[j] < n - 1 ==> j < |pre|;
  }

  /** The declarative reading has only one solution, so it specifies the walk completely. */
  lemma {:induction false} GreedyUnique(kpts: seq<KeyPoint>, near: (KeyPoint, KeyPoint) -> bool,
                                        admits: KeyPoint -> bool, sel: seq<nat>, n: nat)
    requires n <= |kpts|
    requires Greedy(kpts, near, admits, sel, n)
    ensures sel == Kept(kpts, near, admits, n)
  {
    if n == 0 {
      SelectionSize(sel, 0);
    } else {
      var pre := Earlier(sel, n);
      GreedyPeel(kpts, near, admits, sel, n);
      GreedyUnique(kpts, near, admits, pre, n - 1);
      assert pre == Kept(kpts, near, admits, n - 1);
    }
  }

  /** Peeling position n - 1 off a solution leaves a solution for n - 1, and when that one is
      the walk's, so is the whole. */
  lemma GreedyPeel(kpts: seq<KeyPoint>, near: (KeyPoint, KeyPoint) -> bool, admits: KeyPoint -> bool,
                   sel: seq<nat>, n: nat)
    requires 0 < n <= |kpts|
    requires Greedy(kpts, near, admits, sel, n)
    ensures Greedy(kpts, near, admits, Earlier(sel, n), n - 1)
    ensures Earlier(sel, n) == Kept(kpts, near, admits, n - 1) ==> sel == Kept(kpts, near, admits, n)
  {
    var pre := Earlier(sel, n);
    GreedyRestrict(kpts, near, admits, sel, pre, n);
    LastDecided(kpts, near, admits, sel, pre, n);
  }

  /** The listed positions below n - 1: sel without a last entry n - 1. */
  function Earlier(sel: seq<nat>, n: nat): seq<nat> {
    if sel != [] && sel[|sel| - 1] == n - 1 then sel[..|sel| - 1] else sel
  }

  /** An increasing list of positions climbs at least one step per entry. */
  lemma {:induction false} AtLeastPosition(sel: seq<nat>, n: nat, k: nat)
    requires IsSelection(sel, n) && k < |sel|
    ensures sel[k] >= k
  {
    if k > 0 {
      AtLeastPosition(sel, n, k - 1);
    }
  }

  /** A selection of positions below n has at most n entries. */
  lemma SelectionSize(sel: seq<nat>, n: nat)
    requires IsSelection(sel, n)
    ensures |sel| <= n
  {
    if |sel| > 0 {
      AtLeastPosition(sel, n, |sel| - 1);
    }
  }

  /** In a solution for n, position n - 1 is listed, last, exactly when the walk over the
      earlier listed positions accepts it. */
  lemma LastDecided(kpts: seq<KeyPoint>, near: (KeyPoint, KeyPoint) -> bool, admits: KeyPoint -> bool,
                    sel: seq<nat>, pre: seq<nat>, n: nat)
    requires 0 < n <= |kpts|
    requires Greedy(kpts, near, admits, sel, n)
    requires pre == Earlier(sel, n)
    requires forall j :: 0 <= j < |pre| ==> pre[j] < n - 1
    ensures sel == if Accepts(kpts, near, admits, pre, n - 1) then pre + [n - 1] else pre
  {
    if sel != [] && sel[|sel| - 1] == n - 1 {
      assert sel == pre + [n - 1];
      assert n - 1 in sel;
      assert Accepts(kpts, near, admits, pre, n - 1) by {
        assert forall j :: 0 <= j < |pre| ==> sel[j] == pre[j] < n - 1;
      }
    } else {
      assert n - 1 !in sel;
      assert !Accepts(kpts, near, admits, pre, n - 1) by {
        assert forall j :: 0 <= j < |pre| ==> pre[j] < n - 1;
      }
    }
  }

  /** Dropping position n - 1 from a solution for n leaves a solution for n - 1. */
  lemma GreedyRestrict(kpts: seq<KeyPoint>, near: (KeyPoint, KeyPoint) -> bool, admits: KeyPoint -> bool,
                       sel: seq<nat>, pre: seq<nat>, n: nat)
    requires 0 < n <= |kpts|
    requires Greedy(kpts, near, admits, sel, n)
    requires pre == Earlier(sel, n)
    ensures forall j :: 0 <= j < |pre| ==> pre[j] < n - 1
    ensures Greedy(kpts, near, admits, pre, n - 1)
  {
    forall j | 0 <= j < |pre| ensures pre[j] < n - 1 {
      if pre == sel && sel[j] == n - 1 {
        assert false;
      }
    }
    forall i | 0 <= i < n - 1
      ensures i in pre <==> (admits(kpts[i]) && Unopposed(kpts, near, pre, i))
    {
      assert i in sel <==> i in pre;
      assert forall j :: 0 <= j < |sel| && sel[j] < i ==> j < |pre| && sel[j] == pre[j];
      assert Unopposed(kpts, near, sel, i) == Unopposed(kpts, near, pre, i);
    }
  }

  /** The first point of a walk is always kept when it is admissible. */
  lemma FirstKept(kpts: seq<KeyPoint>, near: (KeyPoint, KeyPoint) -> bool, admits: KeyPoint -> bool, n: nat)
    requires 1 <= n <= |kpts| && admits(kpts[0])
    ensures |Kept(kpts, near, admits, n)| >= 1 && Kept(kpts, near, admits, n)[0] == 0
  {
    KeptGreedy(kpts, near, admits, n);
    var sel := Kept(kpts, near, admits, n);
    assert 0 in sel;
    var k :| 0 <= k < |sel| && sel[k] == 0;
    assert sel[0] <= sel[k];
  }

  /** A kept point joins the list: a later candidate is still accepted exactly when it was
      before and the new point does not suppress it. */
  lemma AcceptsSnoc(kpts: seq<KeyPoint>, near: (KeyPoint, KeyPoint) -> bool, admits: KeyPoint -> bool,
                    kept: seq<nat>, i: nat, j: nat)
    requires i < |kpts| && j < |kpts|
    ensures Accepts(kpts, near, admits, kept + [i], j) <==>
      Accepts(kpts, near, admits, kept, j) && !near(kpts[i], kpts[j])
  {
    var k := kept + [i];
    assert forall q :: 0 <= q < |kept| ==> k[q] == kept[q];
    assert k[|kept|] == i;
  }

  /** The neighbour query of a kept point (nanoflann's radiusSearch, RangeTree::search) as a
      brute-force scan, followed by the loop that clears `selected` for every match. */
  method Deselect(kpts: seq<KeyPoint>, rule: Rule, i: nat, selected: array<bool>)
    requires i < |kpts| && selected.Length == |kpts|
    modifies selected
    ensures forall j :: 0 <= j < |kpts| ==>
      selected[j] == (old(selected[j]) && !Blocks(rule, kpts[i], kpts[j]))
  {
    for j := 0 to |kpts|
      invariant forall q :: 0 <= q < j ==>
        selected[q] == (old(selected[q]) && !Blocks(rule, kpts[i], kpts[q]))
      invariant forall q :: j <= q < |kpts| ==> selected[q] == old(selected[q])
    {
      if Blocks(rule, kpts[i], kpts[j]) && selected[j] {
        selected[j] := false;
      }
    }
  }

  /** One trial of DistributeKeypointsKdT_ANMS or DistributeKeypointsRT_ANMS: every point
      starts selected; a point still selected when reached is kept and deselects its
      neighbours. The kept positions are exactly the greedy selection of the rule. */
  method SelectByQuery(kpts: seq<KeyPoint>, rule: Rule) returns (res: seq<nat>)
    requires rule.Disc? || rule.Square?
    ensures res == Trial(kpts, rule, |kpts|)
  {
    ghost var near, admits := Near(rule), Admit(rule);
    var selected := new bool[|kpts|](_ => true);
    res := [];
    for i := 0 to |kpts|
      invariant res == Kept(kpts, near, admits, i)
      invariant forall j :: i <= j < |kpts| ==> (selected[j] <==> Accepts(kpts, near, admits, res, j))
    {
      if selected[i] {
        selected[i] := false;
        forall j | i < j < |kpts| ensures Accepts(kpts, near, admits, res + [i], j) <==>
          Accepts(kpts, near, admits, res, j) && !Blocks(rule, kpts[i], kpts[j]) {
          AcceptsSnoc(kpts, near, admits, res, i, j);
        }
        res := res + [i];
        Deselect(kpts, rule, i, selected);
      }
    }
  }
}
