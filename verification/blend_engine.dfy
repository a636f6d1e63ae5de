/**
 * `compute_blended_profile` without the interpolation: the blended recovery column, the fixed
 * table of recovery percentiles and the cap that marks unreachable percentiles as undefined.
 *
 * A NaN temperature is `None`; so is a NaN recovery maximum, against which every comparison is
 * false.
 */
module BlendEngine {
  import opened Wrappers
  import opened Ordering
  import opened RangeMerge

  /** `share1 * pair_df['recovery'] + share2 * pair_df['recovery_2']` */
  function BlendColumn(rows: seq<MergedRow>, share1: real, share2: real): (b: seq<real>)
    ensures |b| == |rows|
  {
    seq(|rows|, i requires 0 <= i < |rows| => share1 * rows[i].recovery + share2 * rows[i].recovery2)
  }

  /** With nonnegative shares, nondecreasing merged columns give a nondecreasing blend. */
  lemma BlendNondecreasing(rows: seq<MergedRow>, share1: real, share2: real)
    requires 0.0 <= share1 && 0.0 <= share2
    requires Nondecreasing(RecoveryColumn(rows)) && Nondecreasing(Recovery2Column(rows))
    ensures Nondecreasing(BlendColumn(rows, share1, share2))
  {
    var b := BlendColumn(rows, share1, share2);
    forall i, j | 0 <= i <= j < |rows| ensures b[i] <= b[j] {
      assert RecoveryColumn(rows)[i] <= RecoveryColumn(rows)[j];
      assert Recovery2Column(rows)[i] <= Recovery2Column(rows)[j];
      MulMonotone(share1, rows[i].recovery, rows[j].recovery);
      MulMonotone(share2, rows[i].recovery2, rows[j].recovery2);
    }
  }

  lemma MulMonotone(s: real, x: real, y: real)
    requires 0.0 <= s && x <= y
    ensures s * x <= s * y
  {
    assert s * y - s * x == s * (y - x);
  }

  lemma MulStrictlyMonotone(s: real, x: real, y: real)
    requires 0.0 < s && x < y
    ensures s * x < s * y
  {
    assert s * y - s * x == s * (y - x);
  }

  /**
   * With positive shares and nondecreasing merged columns, the blend strictly increases from row to
   * row exactly where at least one of the two columns does.
   */
  lemma BlendStrictlyIncreasing(rows: seq<MergedRow>, share1: real, share2: real)
    requires 0.0 < share1 && 0.0 < share2
    requires Nondecreasing(RecoveryColumn(rows)) && Nondecreasing(Recovery2Column(rows))
    ensures StrictlyIncreasing(BlendColumn(rows, share1, share2)) <==>
      forall i :: 0 < i < |rows| ==>
        rows[i - 1].recovery < rows[i].recovery || rows[i - 1].recovery2 < rows[i].recovery2
  {
    var b := BlendColumn(rows, share1, share2);
    forall i | 0 < i < |rows|
      ensures b[i - 1] < b[i] <==>
        rows[i - 1].recovery < rows[i].recovery || rows[i - 1].recovery2 < rows[i].recovery2
    {
      assert RecoveryColumn(rows)[i - 1] <= RecoveryColumn(rows)[i];
      assert Recovery2Column(rows)[i - 1] <= Recovery2Column(rows)[i];
      BlendStep(share1, share2, rows[i - 1].recovery, rows[i].recovery, rows[i - 1].recovery2, rows[i].recovery2);
    }
  }

  /** One step of a positive blend of two nondecreasing columns. */
  lemma BlendStep(s1: real, s2: real, a0: real, a1: real, c0: real, c1: real)
    requires 0.0 < s1 && 0.0 < s2 && a0 <= a1 && c0 <= c1
    ensures s1 * a0 + s2 * c0 < s1 * a1 + s2 * c1 <==> a0 < a1 || c0 < c1
  {
    MulMonotone(s1, a0, a1);
    MulMonotone(s2, c0, c1);
    if a0 < a1 {
      MulStrictlyMonotone(s1, a0, a1);
    } else if c0 < c1 {
      MulStrictlyMonotone(s2, c0, c1);
    } else {
      assert a0 == a1 && c0 == c1;
    }
  }

  /** With shares that sum to 1, every blended value lies between the two recoveries it blends. */
  lemma BlendBetweenRecoveries(rows: seq<MergedRow>, share1: real, share2: real, i: nat)
    requires 0.0 <= share1 && 0.0 <= share2 && share1 + share2 == 1.0
    requires i < |rows|
    ensures rows[i].recovery <= rows[i].recovery2 ==>
              rows[i].recovery <= BlendColumn(rows, share1, share2)[i] <= rows[i].recovery2
    ensures rows[i].recovery2 <= rows[i].recovery ==>
              rows[i].recovery2 <= BlendColumn(rows, share1, share2)[i] <= rows[i].recovery
  {
    var a, c := rows[i].recovery, rows[i].recovery2;
    assert BlendColumn(rows, share1, share2)[i] == share1 * a + share2 * c;
    if a <= c {
      ConvexBetween(share1, share2, a, c);
    } else {
      ConvexBetween(share2, share1, c, a);
    }
  }

  /** A convex combination of `a <= c` lies between them. */
  lemma ConvexBetween(s1: real, s2: real, a: real, c: real)
    requires 0.0 <= s1 && 0.0 <= s2 && s1 + s2 == 1.0 && a <= c
    ensures a <= s1 * a + s2 * c <= c
  {
    var d := c - a;
    assert s1 * a + s2 * c == a + s2 * d by {
      assert s1 == 1.0 - s2;
    }
    MulMonotone(s2, 0.0, d);
    assert s2 * d <= d by {
      MulMonotone(d, s2, 1.0);
      assert d * s2 == s2 * d && d * 1.0 == d;
    }
  }

  /** The merged rows with the two liquids' columns exchanged. */
  function Swapped(rows: seq<MergedRow>): (s: seq<MergedRow>)
    ensures |s| == |rows|
  {
    seq(|rows|, i requires 0 <= i < |rows| => MergedRow(rows[i].temperature, rows[i].recovery2, rows[i].recovery))
  }

  /** Exchanging the two liquids together with their shares leaves the blend unchanged. */
  lemma BlendSymmetric(rows: seq<MergedRow>, share1: real, share2: real)
    ensures BlendColumn(Swapped(rows), share2, share1) == BlendColumn(rows, share1, share2)
  {
    var b, b' := BlendColumn(rows, share1, share2), BlendColumn(Swapped(rows), share2, share1);
    forall i | 0 <= i < |rows| ensures b'[i] == b[i] {
      assert Swapped(rows)[i] == MergedRow(rows[i].temperature, rows[i].recovery2, rows[i].recovery);
    }
  }

  /** The merged frame, which `compute_blended_profile` extends by a `blended` column. */
  class PairFrame {
    var rows: seq<MergedRow>
    var blended: Option<seq<real>>

    constructor (rows: seq<MergedRow>)
      ensures this.rows == rows && blended == None
    {
      this.rows := rows;
      blended := None;
    }

    /** `pair_df['blended'] = share1 * pair_df['recovery'] + share2 * pair_df['recovery_2']` */
    method AddBlendedColumn(share1: real, share2: real)
      modifies this
      ensures rows == old(rows)
      ensures blended == Some(BlendColumn(rows, share1, share2))
    {
      blended := Some(BlendColumn(rows, share1, share2));
    }
  }

  /** The recovery percentiles the blended profile reports, in this order. */
  const ProfilePercentages: seq<int> := [5, 10, 20, 30, 40, 50, 60, 70, 80, 90, 95, 99]

  lemma ProfilePercentagesAscending()
    ensures |ProfilePercentages| == 12
    ensures forall i, j :: 0 <= i < j < |ProfilePercentages| ==> ProfilePercentages[i] < ProfilePercentages[j]
  {
  }

  /**
   * `recovery_max = max1 * share1 + max2 * share2`, the most the blend can recover; the NaN
   * maximum of an empty recovery column makes it NaN.
   */
  function RecoveryMax(max1: Option<real>, share1: real, max2: Option<real>, share2: real): (r: Option<real>)
    ensures r.Some? <==> max1.Some? && max2.Some?
    ensures r.Some? && 0.0 <= share1 && 0.0 <= share2 && share1 + share2 == 1.0 ==>
              (max1.value <= r.value <= max2.value) || (max2.value <= r.value <= max1.value)
  {
    if max1.Some? && max2.Some? then
      var m := max1.value * share1 + max2.value * share2;
      assert 0.0 <= share1 && 0.0 <= share2 && share1 + share2 == 1.0 ==>
               (max1.value <= m <= max2.value) || (max2.value <= m <= max1.value) by {
        if 0.0 <= share1 && 0.0 <= share2 && share1 + share2 == 1.0 {
          if max1.value <= max2.value {
            ConvexBetween(share1, share2, max1.value, max2.value);
          } else {
            ConvexBetween(share2, share1, max2.value, max1.value);
          }
        }
      }
      Some(m)
    else None
  }

  /** `blended_df['recovery'] > recovery_max`; false against NaN. */
  function AboveMax(percentile: int, recoveryMax: Option<real>): (above: bool)
    ensures recoveryMax.None? ==> !above
  {
    recoveryMax.Some? && percentile as real > recoveryMax.value
  }

  /** The inverse interpolant evaluated at each percentile: a finite temperature for each. */
  function InverseAt(percentages: seq<int>, inverse: real -> real): (t: seq<Option<real>>)
    ensures |t| == |percentages|
  {
    seq(|percentages|, i requires 0 <= i < |percentages| => Some(inverse(percentages[i] as real)))
  }

  /** The temperature column after `blended_df.loc[over_max, 'temperature'] = np.nan`. */
  function CappedTemperatures(recovery: seq<int>, temperature: seq<Option<real>>, recoveryMax: Option<real>)
    : (c: seq<Option<real>>)
    requires |recovery| == |temperature|
    ensures |c| == |recovery|
  {
    seq(|recovery|, i requires 0 <= i < |recovery| =>
      if AboveMax(recovery[i], recoveryMax) then None else temperature[i])
  }

  /** The result table: the twelve percentiles and their temperatures. */
  class BlendedFrame {
    var recovery: seq<int>
    var temperature: seq<Option<real>>

    ghost predicate Valid()
      reads this
    {
      |recovery| == |temperature|
    }

    constructor (recovery: seq<int>, temperature: seq<Option<real>>)
      requires |recovery| == |temperature|
      ensures Valid() && this.recovery == recovery && this.temperature == temperature
    {
      this.recovery := recovery;
      this.temperature := temperature;
    }

    /** `blended_df.loc[over_max, 'temperature'] = np.nan` */
    method SetUndefinedAbove(recoveryMax: Option<real>)
      requires Valid()
      modifies this
      ensures Valid() && recovery == old(recovery)
      ensures temperature == CappedTemperatures(old(recovery), old(temperature), recoveryMax)
    {
      temperature := CappedTemperatures(recovery, temperature, recoveryMax);
    }
  }

  /** The temperatures reported for the profile percentiles under a given recovery maximum. */
  function ProfileTemperatures(inverse: real -> real, recoveryMax: Option<real>): (t: seq<Option<real>>)
    ensures |t| == |ProfilePercentages|
  {
    CappedTemperatures(ProfilePercentages, InverseAt(ProfilePercentages, inverse), recoveryMax)
  }

  /**
   * A percentile's temperature is undefined exactly when the percentile exceeds the recovery
   * maximum; otherwise it is the inverse interpolant's value there.
   */
  lemma ProfileTemperaturesAt(inverse: real -> real, recoveryMax: Option<real>, i: nat)
    requires i < |ProfilePercentages|
    ensures ProfileTemperatures(inverse, recoveryMax)[i] ==
      if recoveryMax.Some? && ProfilePercentages[i] as real > recoveryMax.value then None
      else Some(inverse(ProfilePercentages[i] as real))
  {
  }

  /** Undefined temperatures form a suffix of the table: every higher percentile is undefined too. */
  lemma UndefinedFormSuffix(inverse: real -> real, recoveryMax: Option<real>, i: nat, j: nat)
    requires i <= j < |ProfilePercentages|
    requires ProfileTemperatures(inverse, recoveryMax)[i].None?
    ensures ProfileTemperatures(inverse, recoveryMax)[j].None?
  {
    ProfilePercentagesAscending();
    if i < j {
      assert ProfilePercentages[i] < ProfilePercentages[j];
    }
  }

  /**
   * Equal shares of liquids that recover at most 95 % and 90 % can recover 92.5 %: only the
   * 95 and 99 percentiles are undefined.
   */
  lemma EqualSharesCapExample(inverse: real -> real, i: nat)
    requires i < |ProfilePercentages|
    ensures RecoveryMax(Some(95.0), 0.5, Some(90.0), 0.5) == Some(92.5)
    ensures ProfileTemperatures(inverse, RecoveryMax(Some(95.0), 0.5, Some(90.0), 0.5))[i].None?
            <==> ProfilePercentages[i] in {95, 99}
  {
    var t := ProfileTemperatures(inverse, Some(92.5));
    ProfileTemperaturesAt(inverse, Some(92.5), i);
  }
}
