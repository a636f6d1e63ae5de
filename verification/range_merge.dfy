/**
 * `merge_interpolations_over_range`: two interpolations, each sampled on its own integer grid, are
 * joined by temperature onto a shared grid; missing cells are forward-filled from the row above
 * and whatever is still missing (the rows before a curve's first sample) becomes 0.
 */
module RangeMerge {
  import opened Wrappers
  import opened Ordering
  import opened TemperatureGrid

  /** An interpolation sampled on integer temperatures: a frame indexed by temperature. */
  type Curve = map<int, real>

  /** One row of the merged frame: `temperature`, `recovery`, `recovery_2`. */
  datatype MergedRow = MergedRow(temperature: int, recovery: real, recovery2: real)

  /**
   * The merged column of `curve` at row `i` of `grid`: the curve's own sample when it has one at
   * that temperature, else the value of the row above, else 0 on the first row.
   */
  function Filled(grid: seq<int>, curve: Curve, i: nat): (v: real)
    requires i < |grid|
    ensures grid[i] in curve ==> v == curve[grid[i]]
    ensures (forall k :: 0 <= k <= i ==> grid[k] !in curve) ==> v == 0.0
  {
    if grid[i] in curve then curve[grid[i]]
    else if i == 0 then 0.0
    else Filled(grid, curve, i - 1)
  }

  /** The merged frame: one row per grid temperature, in grid order. */
  function Merged(grid: seq<int>, interp1: Curve, interp2: Curve): (m: seq<MergedRow>)
    ensures |m| == |grid|
  {
    seq(|grid|, i requires 0 <= i < |grid| =>
      MergedRow(grid[i], Filled(grid, interp1, i), Filled(grid, interp2, i)))
  }

  /** The value left in a cell by `fillna(value=0)`. */
  function ZeroIfMissing(cell: Option<real>): real
  {
    if cell.Some? then cell.value else 0.0
  }

  /**
   * The join leaves a missing cell wherever a curve has no sample; the forward fill carries the
   * last cell seen down each column, and the zero fill replaces what is still missing.
   */
  method MergeInterpolationsOverRange(interp1: Curve, interp2: Curve, temperatureRange: seq<int>)
    returns (merged: seq<MergedRow>)
    ensures merged == Merged(temperatureRange, interp1, interp2)
    ensures forall i :: 0 <= i < |merged| && temperatureRange[i] in interp1 ==>
              merged[i].recovery == interp1[temperatureRange[i]]
    ensures forall i :: 0 <= i < |merged| && temperatureRange[i] in interp2 ==>
              merged[i].recovery2 == interp2[temperatureRange[i]]
  {
    merged := [];
    var last1: Option<real> := None;
    var last2: Option<real> := None;
    for i := 0 to |temperatureRange|
      invariant |merged| == i
      invariant forall k :: 0 <= k < i ==>
        merged[k] == MergedRow(temperatureRange[k], Filled(temperatureRange, interp1, k),
                               Filled(temperatureRange, interp2, k))
      invariant i == 0 ==> last1 == None && last2 == None
      invariant i > 0 ==> ZeroIfMissing(last1) == Filled(temperatureRange, interp1, i - 1)
      invariant i > 0 ==> ZeroIfMissing(last2) == Filled(temperatureRange, interp2, i - 1)
    {
      var t := temperatureRange[i];
      FilledStep(temperatureRange, interp1, i, last1);
      FilledStep(temperatureRange, interp2, i, last2);
      if t in interp1 {
        last1 := Some(interp1[t]);
      }
      if t in interp2 {
        last2 := Some(interp2[t]);
      }
      merged := merged + [MergedRow(t, ZeroIfMissing(last1), ZeroIfMissing(last2))];
    }
    forall k | 0 <= k < |merged|
      ensures temperatureRange[k] in interp1 ==> merged[k].recovery == interp1[temperatureRange[k]]
      ensures temperatureRange[k] in interp2 ==> merged[k].recovery2 == interp2[temperatureRange[k]]
    {
      assert merged[k].recovery == Filled(temperatureRange, interp1, k);
      assert merged[k].recovery2 == Filled(temperatureRange, interp2, k);
    }
  }

  /** One step of the forward fill: the last cell seen, updated by row `i`, is the filled row `i`. */
  lemma FilledStep(grid: seq<int>, curve: Curve, i: nat, last: Option<real>)
    requires i < |grid|
    requires i == 0 ==> last == None
    requires i > 0 ==> ZeroIfMissing(last) == Filled(grid, curve, i - 1)
    ensures ZeroIfMissing(if grid[i] in curve then Some(curve[grid[i]]) else last) == Filled(grid, curve, i)
  {
  }

  /** A row with no sample of its own holds the curve's nearest earlier sample on the grid. */
  lemma {:induction false} FilledFromNearestSample(grid: seq<int>, curve: Curve, j: nat, i: nat)
    requires j <= i < |grid|
    requires grid[j] in curve
    requires forall k :: j < k <= i ==> grid[k] !in curve
    ensures Filled(grid, curve, i) == curve[grid[j]]
  {
    if i > j {
      FilledFromNearestSample(grid, curve, j, i - 1);
    }
  }

  /** Every merged cell is 0 or one of the curve's samples at that row or an earlier one. */
  lemma {:induction false} FilledIsZeroOrSampleAbove(grid: seq<int>, curve: Curve, i: nat)
    requires i < |grid|
    ensures Filled(grid, curve, i) == 0.0 ||
            exists k :: 0 <= k <= i && grid[k] in curve && Filled(grid, curve, i) == curve[grid[k]]
  {
    if grid[i] !in curve && i > 0 {
      FilledIsZeroOrSampleAbove(grid, curve, i - 1);
    }
  }

  /** Samples never decrease as temperature rises. */
  ghost predicate CurveNondecreasing(curve: Curve)
  {
    forall t1, t2 :: t1 in curve && t2 in curve && t1 <= t2 ==> curve[t1] <= curve[t2]
  }

  ghost predicate CurveNonnegative(curve: Curve)
  {
    forall t :: t in curve ==> 0.0 <= curve[t]
  }

  /**
   * On an increasing grid, a merged column of a nonnegative, nondecreasing curve is
   * nondecreasing: leading zeros, the samples, then the last sample repeated.
   */
  lemma {:induction false} FilledNondecreasing(grid: seq<int>, curve: Curve, i: nat, j: nat)
    requires IncreasingGrid(grid)
    requires CurveNondecreasing(curve) && CurveNonnegative(curve)
    requires i <= j < |grid|
    ensures Filled(grid, curve, i) <= Filled(grid, curve, j)
  {
    if i < j {
      if grid[j] in curve {
        FilledIsZeroOrSampleAbove(grid, curve, i);
        if Filled(grid, curve, i) != 0.0 {
          var k :| 0 <= k <= i && grid[k] in curve && Filled(grid, curve, i) == curve[grid[k]];
          assert grid[k] < grid[j];
        }
      } else {
        FilledNondecreasing(grid, curve, i, j - 1);
      }
    }
  }

  /** The `recovery` column of merged rows. */
  function RecoveryColumn(rows: seq<MergedRow>): (c: seq<real>)
    ensures |c| == |rows|
  {
    seq(|rows|, i requires 0 <= i < |rows| => rows[i].recovery)
  }

  /** The `recovery_2` column of merged rows. */
  function Recovery2Column(rows: seq<MergedRow>): (c: seq<real>)
    ensures |c| == |rows|
  {
    seq(|rows|, i requires 0 <= i < |rows| => rows[i].recovery2)
  }

  /** Both merged columns of nonnegative, nondecreasing curves are nondecreasing. */
  lemma MergedColumnsNondecreasing(grid: seq<int>, interp1: Curve, interp2: Curve)
    requires IncreasingGrid(grid)
    requires CurveNondecreasing(interp1) && CurveNonnegative(interp1)
    requires CurveNondecreasing(interp2) && CurveNonnegative(interp2)
    ensures Nondecreasing(RecoveryColumn(Merged(grid, interp1, interp2)))
    ensures Nondecreasing(Recovery2Column(Merged(grid, interp1, interp2)))
  {
    forall i, j | 0 <= i <= j < |grid|
      ensures Filled(grid, interp1, i) <= Filled(grid, interp1, j)
      ensures Filled(grid, interp2, i) <= Filled(grid, interp2, j)
    {
      FilledNondecreasing(grid, interp1, i, j);
      FilledNondecreasing(grid, interp2, i, j);
    }
  }

  /**
   * A curve sampled on the integers `lo .. hi - 1`, merged onto a grid of consecutive integers
   * that covers them: 0 before `lo`, the sample itself inside, the sample at `hi - 1` after.
   */
  lemma MergedColumnShape(glo: int, ghi: int, curve: Curve, lo: int, hi: int, i: nat)
    requires glo <= lo < hi <= ghi
    requires forall t :: t in curve <==> lo <= t < hi
    requires i < |Arange(glo, ghi)|
    ensures var grid := Arange(glo, ghi);
      && (grid[i] < lo ==> Filled(grid, curve, i) == 0.0)
      && (lo <= grid[i] < hi ==> Filled(grid, curve, i) == curve[grid[i]])
      && (hi <= grid[i] ==> Filled(grid, curve, i) == curve[hi - 1])
  {
    var grid := Arange(glo, ghi);
    if hi <= grid[i] {
      FilledFromNearestSample(grid, curve, hi - 1 - glo, i);
    }
  }
}
