/**
 * The snap-point table that `RowSnapScrollTargetBehavior.init` builds: one offset per row,
 * in row order, where a row's offset is the room taken by every row above it, each row
 * counting its height plus the inter-row spacing. Offsets are exact reals (the source's
 * `CGFloat` rounding is not modelled).
 */
module SnapPoints {

  /** Room taken by `rows` stacked top to bottom: the sum of `height(row) + spacing`. */
  function Extent<T>(rows: seq<T>, spacing: real, height: T -> real): real
  {
    if rows == [] then 0.0
    else Extent(rows[..|rows| - 1], spacing, height) + height(rows[|rows| - 1]) + spacing
  }

  /** The table: entry `i` is the exclusive prefix sum over the rows before `i`. */
  function SnapTable<T>(rows: seq<T>, spacing: real, height: T -> real): seq<real>
  {
    seq(|rows|, i requires 0 <= i < |rows| => Extent(rows[..i], spacing, height))
  }

  /** Non-decreasing, the order the target rewrite relies on. */
  predicate Sorted(s: seq<real>)
  {
    forall i, j :: 0 <= i < j < |s| ==> s[i] <= s[j]
  }

  predicate StrictlyIncreasing(s: seq<real>)
  {
    forall i, j :: 0 <= i < j < |s| ==> s[i] < s[j]
  }

  /** The `init` loop: append the running offset, then advance it past the row. */
  method BuildSnapPoints<T>(data: seq<T>, spacing: real, height: T -> real)
    returns (snapPoints: seq<real>)
    ensures snapPoints == SnapTable(data, spacing, height)
  {
    snapPoints := [];
    var y: real := 0.0;
    for i := 0 to |data|
      invariant snapPoints == SnapTable(data[..i], spacing, height)
      invariant y == Extent(data[..i], spacing, height)
    {
      assert data[..i + 1][..i] == data[..i];
      PrefixTable(data[..i + 1], spacing, height);
      snapPoints := snapPoints + [y];
      y := y + height(data[i]) + spacing;
    }
    assert data[..|data|] == data;
  }

  /** Extending the rows by one extends the table by the extent of the old rows. */
  lemma PrefixTable<T>(rows: seq<T>, spacing: real, height: T -> real)
    requires rows != []
    ensures SnapTable(rows, spacing, height)
         == SnapTable(rows[..|rows| - 1], spacing, height) + [Extent(rows[..|rows| - 1], spacing, height)]
  {
    var n := |rows| - 1;
    forall i | 0 <= i < n
      ensures SnapTable(rows, spacing, height)[i] == SnapTable(rows[..n], spacing, height)[i]
    {
      assert rows[..n][..i] == rows[..i];
    }
  }

  /** One entry per row, empty exactly when there are no rows, and the first entry is 0. */
  lemma TableShape<T>(rows: seq<T>, spacing: real, height: T -> real)
    ensures |SnapTable(rows, spacing, height)| == |rows|
    ensures SnapTable(rows, spacing, height) == [] <==> rows == []
    ensures rows != [] ==> SnapTable(rows, spacing, height)[0] == 0.0
  {
    if rows != [] {
      assert rows[..0] == [];
    }
  }

  /** Each entry is the previous one plus the previous row's height and the spacing. */
  lemma TableStep<T>(rows: seq<T>, spacing: real, height: T -> real, i: nat)
    requires i + 1 < |rows|
    ensures SnapTable(rows, spacing, height)[i + 1]
         == SnapTable(rows, spacing, height)[i] + height(rows[i]) + spacing
  {
    assert rows[..i + 1][..i] == rows[..i];
  }

  /** With every `height(row) + spacing` positive, later rows sit strictly lower. */
  lemma {:induction false} TableStrictlyIncreasing<T>(rows: seq<T>, spacing: real, height: T -> real)
    requires forall k :: 0 <= k < |rows| ==> height(rows[k]) + spacing > 0.0
    ensures StrictlyIncreasing(SnapTable(rows, spacing, height))
  {
    var t := SnapTable(rows, spacing, height);
    forall i, j | 0 <= i < j < |t| ensures t[i] < t[j] {
      StepsIncrease(rows, spacing, height, i, j);
    }
  }

  lemma {:induction false} StepsIncrease<T>(rows: seq<T>, spacing: real, height: T -> real, i: nat, j: nat)
    requires i < j < |rows|
    requires forall k :: 0 <= k < |rows| ==> height(rows[k]) + spacing > 0.0
    ensures SnapTable(rows, spacing, height)[i] < SnapTable(rows, spacing, height)[j]
    decreases j - i
  {
    TableStep(rows, spacing, height, j - 1);
    if i < j - 1 {
      StepsIncrease(rows, spacing, height, i, j - 1);
    }
  }

  /** With every `height(row) + spacing` non-negative, the table is sorted. */
  lemma {:induction false} TableSorted<T>(rows: seq<T>, spacing: real, height: T -> real)
    requires forall k :: 0 <= k < |rows| ==> height(rows[k]) + spacing >= 0.0
    ensures Sorted(SnapTable(rows, spacing, height))
  {
    var t := SnapTable(rows, spacing, height);
    forall i, j | 0 <= i < j < |t| ensures t[i] <= t[j] {
      StepsDoNotDecrease(rows, spacing, height, i, j);
    }
  }

  lemma {:induction false} StepsDoNotDecrease<T>(rows: seq<T>, spacing: real, height: T -> real, i: nat, j: nat)
    requires i < j < |rows|
    requires forall k :: 0 <= k < |rows| ==> height(rows[k]) + spacing >= 0.0
    ensures SnapTable(rows, spacing, height)[i] <= SnapTable(rows, spacing, height)[j]
    decreases j - i
  {
    TableStep(rows, spacing, height, j - 1);
    if i < j - 1 {
      StepsDoNotDecrease(rows, spacing, height, i, j - 1);
    }
  }

  /** The host's contract: positive heights and non-negative spacing give a strictly increasing table. */
  lemma PositiveHeightsStrictlyIncreasing<T>(rows: seq<T>, spacing: real, height: T -> real)
    requires spacing >= 0.0
    requires forall k :: 0 <= k < |rows| ==> height(rows[k]) > 0.0
    ensures StrictlyIncreasing(SnapTable(rows, spacing, height))
    ensures Sorted(SnapTable(rows, spacing, height))
  {
    TableStrictlyIncreasing(rows, spacing, height);
  }
}
