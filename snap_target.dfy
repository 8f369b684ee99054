/**
 * `RowSnapScrollTargetBehavior.updateTarget`: rewrite the provisional resting offset of a
 * scroll gesture to a snap point. The target is reduced to its vertical offset `y`; the
 * source reads it as `rect.minY` and writes it as `rect.origin.y`, which are the same
 * number for a rectangle of non-negative height, and that is assumed here.
 */
module SnapTarget {
  import opened Wrappers
  import opened Search
  import opened SnapPoints

  /** Index of `lower`: the last snap point `<= y` (`snapPoints.last { $0 <= y }`). */
  function LowerIndex(snapPoints: seq<real>, y: real): (r: Option<nat>)
    ensures r.Some? ==> r.value < |snapPoints| && snapPoints[r.value] <= y
    ensures r.Some? ==> forall j :: r.value < j < |snapPoints| ==> snapPoints[j] > y
    ensures r.None? <==> forall j :: 0 <= j < |snapPoints| ==> snapPoints[j] > y
  {
    LastIndex(snapPoints, p => p <= y)
  }

  /** Index of `higher`: the first snap point `> y` (`snapPoints.first { $0 > y }`). */
  function HigherIndex(snapPoints: seq<real>, y: real): (r: Option<nat>)
    ensures r.Some? ==> r.value < |snapPoints| && snapPoints[r.value] > y
    ensures r.Some? ==> forall j :: 0 <= j < r.value ==> snapPoints[j] <= y
    ensures r.None? <==> forall j :: 0 <= j < |snapPoints| ==> snapPoints[j] <= y
  {
    FirstIndex(snapPoints, p => p > y)
  }

  /**
   * The decision rule: with both neighbours, `lower` only when it is strictly nearer, so an
   * exact midpoint goes to `higher`; with one neighbour, that one; with none, `y` unchanged.
   */
  function Snap(snapPoints: seq<real>, y: real): real
  {
    match (LowerIndex(snapPoints, y), HigherIndex(snapPoints, y))
    case (Some(lo), Some(hi)) =>
      if y - snapPoints[lo] < snapPoints[hi] - y then snapPoints[lo] else snapPoints[hi]
    case (Some(lo), None) => snapPoints[lo]
    case (None, Some(hi)) => snapPoints[hi]
    case (None, None) => y
  }

  function Abs(x: real): real { if x < 0.0 then -x else x }

  /**
   * `updateTarget` on the target's offset (an `inout` parameter: the new offset is returned).
   * Its branches follow the source's `if let lower, let higher … else if …` chain.
   */
  method UpdateTarget(snapPoints: seq<real>, y: real) returns (newY: real)
    ensures newY == Snap(snapPoints, y)
    ensures snapPoints == [] ==> newY == y
    ensures snapPoints != [] ==> newY in snapPoints
    ensures Sorted(snapPoints) ==> forall p :: p in snapPoints ==> Abs(newY - y) <= Abs(p - y)
  {
    var lower := LowerIndex(snapPoints, y);
    var higher := HigherIndex(snapPoints, y);
    newY := y;
    if lower.Some? && higher.Some? {
      if y - snapPoints[lower.value] < snapPoints[higher.value] - y {
        newY := snapPoints[lower.value];
      } else {
        newY := snapPoints[higher.value];
      }
    } else if lower.Some? {
      newY := snapPoints[lower.value];
    } else if higher.Some? {
      newY := snapPoints[higher.value];
    }
    SnapMembership(snapPoints, y);
    if Sorted(snapPoints) {
      forall p | p in snapPoints ensures Abs(newY - y) <= Abs(p - y) {
        SnapIsNearest(snapPoints, y, p);
      }
    }
  }

  /** An empty table leaves the offset alone; otherwise the result is one of the snap points. */
  lemma SnapMembership(snapPoints: seq<real>, y: real)
    ensures snapPoints == [] ==> Snap(snapPoints, y) == y
    ensures snapPoints != [] ==> Snap(snapPoints, y) in snapPoints
  {
    if snapPoints != [] {
      var lo, hi := LowerIndex(snapPoints, y), HigherIndex(snapPoints, y);
      assert lo.Some? || hi.Some? by {
        if lo.None? { assert snapPoints[0] > y; }
      }
    }
  }

  /** With both neighbours: `lower` exactly when it is strictly nearer, so a tie goes to `higher`. */
  lemma SnapBetween(snapPoints: seq<real>, y: real)
    requires LowerIndex(snapPoints, y).Some? && HigherIndex(snapPoints, y).Some?
    ensures var lower := snapPoints[LowerIndex(snapPoints, y).value];
            var higher := snapPoints[HigherIndex(snapPoints, y).value];
            lower <= y < higher &&
            (Snap(snapPoints, y) == lower <==> y - lower < higher - y) &&
            (Snap(snapPoints, y) == higher <==> y - lower >= higher - y)
  {
  }

  /** On a sorted table, `lower` and `higher` are adjacent entries. */
  lemma NeighboursAdjacent(snapPoints: seq<real>, y: real)
    requires Sorted(snapPoints)
    requires LowerIndex(snapPoints, y).Some? && HigherIndex(snapPoints, y).Some?
    ensures HigherIndex(snapPoints, y).value == LowerIndex(snapPoints, y).value + 1
  {
    var lo, hi := LowerIndex(snapPoints, y).value, HigherIndex(snapPoints, y).value;
    assert snapPoints[lo] <= y < snapPoints[hi];
    assert lo < hi;
    assert snapPoints[lo + 1] > y;
  }

  /** On a sorted table every point `<= y` is `<= lower`. */
  lemma LowerIsGreatestBelow(snapPoints: seq<real>, y: real, p: real)
    requires Sorted(snapPoints)
    requires p in snapPoints && p <= y
    ensures LowerIndex(snapPoints, y).Some?
    ensures p <= snapPoints[LowerIndex(snapPoints, y).value]
  {
    var j :| 0 <= j < |snapPoints| && snapPoints[j] == p;
    var lo := LowerIndex(snapPoints, y);
    assert lo.Some?;
    assert j <= lo.value;
  }

  /** On a sorted table every point `> y` is `>= higher`. */
  lemma HigherIsLeastAbove(snapPoints: seq<real>, y: real, p: real)
    requires Sorted(snapPoints)
    requires p in snapPoints && p > y
    ensures HigherIndex(snapPoints, y).Some?
    ensures snapPoints[HigherIndex(snapPoints, y).value] <= p
  {
    var j :| 0 <= j < |snapPoints| && snapPoints[j] == p;
    var hi := HigherIndex(snapPoints, y);
    assert hi.Some?;
    assert hi.value <= j;
  }

  /** On a sorted table the rewritten offset is a nearest snap point. */
  lemma SnapIsNearest(snapPoints: seq<real>, y: real, p: real)
    requires Sorted(snapPoints)
    requires p in snapPoints
    ensures Abs(Snap(snapPoints, y) - y) <= Abs(p - y)
  {
    if p <= y {
      LowerIsGreatestBelow(snapPoints, y, p);
    } else {
      HigherIsLeastAbove(snapPoints, y, p);
    }
    var lo, hi := LowerIndex(snapPoints, y), HigherIndex(snapPoints, y);
    if lo.Some? && hi.Some? {
      assert snapPoints[lo.value] <= y < snapPoints[hi.value];
    }
  }

  /**
   * On a sorted table, of the snap points nearest to `y` the rewrite picks the highest
   * offset: this is where the one-sided tie-break shows.
   */
  lemma SnapPrefersLaterOnTie(snapPoints: seq<real>, y: real, p: real)
    requires Sorted(snapPoints)
    requires p in snapPoints && Abs(p - y) == Abs(Snap(snapPoints, y) - y)
    ensures p <= Snap(snapPoints, y)
  {
    var lo, hi := LowerIndex(snapPoints, y), HigherIndex(snapPoints, y);
    SnapMembership(snapPoints, y);
    if p <= y {
      LowerIsGreatestBelow(snapPoints, y, p);
    } else {
      HigherIsLeastAbove(snapPoints, y, p);
    }
  }

  /** An offset smaller than the first point (sorted table) goes to the first point. */
  lemma SnapAboveFirst(snapPoints: seq<real>, y: real)
    requires Sorted(snapPoints)
    requires snapPoints != [] && y < snapPoints[0]
    ensures Snap(snapPoints, y) == snapPoints[0]
  {
    assert LowerIndex(snapPoints, y).None?;
  }

  /** An offset `>=` the last point (sorted table) goes to the last point. */
  lemma SnapBeyondLast(snapPoints: seq<real>, y: real)
    requires Sorted(snapPoints)
    requires snapPoints != [] && snapPoints[|snapPoints| - 1] <= y
    ensures Snap(snapPoints, y) == snapPoints[|snapPoints| - 1]
  {
    assert HigherIndex(snapPoints, y).None?;
  }

  /** An offset that is already a snap point is kept (sorted table). */
  lemma SnapKeepsSnapPoint(snapPoints: seq<real>, y: real)
    requires Sorted(snapPoints)
    requires y in snapPoints
    ensures Snap(snapPoints, y) == y
  {
    LowerIsGreatestBelow(snapPoints, y, y);
  }

  /** Rewriting twice is rewriting once (sorted table). */
  lemma SnapIdempotent(snapPoints: seq<real>, y: real)
    requires Sorted(snapPoints)
    ensures Snap(snapPoints, Snap(snapPoints, y)) == Snap(snapPoints, y)
  {
    SnapMembership(snapPoints, y);
    if snapPoints != [] {
      SnapKeepsSnapPoint(snapPoints, Snap(snapPoints, y));
    }
  }

  /**
   * Without sorting the rule is not idempotent. Heights 10, -2 and 1 with no spacing build
   * the table `[0, 10, 8]`, which sends 5 to 10, and 10 to 8.
   */
  lemma UnsortedNotIdempotent()
    ensures SnapTable([10.0, -2.0, 1.0], 0.0, x => x) == [0.0, 10.0, 8.0]
    ensures Snap([0.0, 10.0, 8.0], 5.0) == 10.0 && Snap([0.0, 10.0, 8.0], 10.0) == 8.0
  {
    var rows: seq<real> := [10.0, -2.0, 1.0];
    TableShape(rows, 0.0, x => x);
    TableStep(rows, 0.0, x => x, 0);
    TableStep(rows, 0.0, x => x, 1);
    var t := [0.0, 10.0, 8.0];
    var lo := LowerIndex(t, 5.0);
    assert lo.Some? by { assert t[0] <= 5.0; }
    assert lo.value != 1 && lo.value != 2;
    assert HigherIndex([0.0, 10.0, 8.0], 5.0) == Some(1);
    assert HigherIndex([0.0, 10.0, 8.0], 10.0).None?;
  }

  /**
   * The two halves together: with positive row heights and non-negative spacing, a gesture
   * comes to rest at some row's table offset, and no row's table offset is nearer to where
   * it would have rested. A row's table offset is its top edge less the list's padding,
   * which the table leaves out.
   */
  lemma SnapToRowOffset<T>(rows: seq<T>, spacing: real, height: T -> real, y: real)
    requires rows != [] && spacing >= 0.0
    requires forall k :: 0 <= k < |rows| ==> height(rows[k]) > 0.0
    ensures var table := SnapTable(rows, spacing, height);
            (exists k :: 0 <= k < |rows| && Snap(table, y) == table[k]) &&
            (forall k :: 0 <= k < |rows| ==> Abs(Snap(table, y) - y) <= Abs(table[k] - y))
  {
    var table := SnapTable(rows, spacing, height);
    PositiveHeightsStrictlyIncreasing(rows, spacing, height);
    SnapMembership(table, y);
    forall k | 0 <= k < |rows| ensures Abs(Snap(table, y) - y) <= Abs(table[k] - y) {
      SnapIsNearest(table, y, table[k]);
    }
  }
}
