/**
 * `BlendedProfileBuilder`: the share check of the constructor, the sampling of each profile's
 * interpolation on its grid, and the pipeline of `run` from the cached table to the blended
 * profile.
 *
 * The two monotone cubic (PCHIP) interpolants and the inverse one fitted to the blended column are
 * parameters: `fit1`, `fit2` and `inverse` stand for their evaluation. What the model keeps of
 * scipy is the check it makes before fitting: at least two abscissae, strictly increasing,
 * otherwise `ValueError`.
 */
module ProfileBuilder {
  import opened Wrappers
  import opened Ordering
  import opened TemperatureGrid
  import opened ProfileLoading
  import opened RangeMerge
  import opened BlendEngine

  /** The failures of the builder; the source raises each as `ValueError`. */
  datatype Error =
    | ShareOutOfRange     // a volume share outside the open interval (0, 1)
    | UndefinedBound      // `math.ceil`/`math.floor` of the NaN extreme of an empty column
    | InterpolationInput  // pchip given fewer than 2 abscissae or abscissae not strictly increasing

  /** The builder's state, fixed by the constructor. */
  datatype Builder = Builder(code1: string, code2: string, volume1: real, volume2: real,
                             refresh: bool, profilePercentages: seq<int>)

  /** `BlendedProfileBuilder(code1, code2, volume1, volume2, refresh)` */
  function NewBuilder(code1: string, code2: string, volume1: real, volume2: real, refresh: bool)
    : (r: Result<Builder, Error>)
    ensures r.Success? <==> 0.0 < volume1 < 1.0 && 0.0 < volume2 < 1.0
    ensures r.Failure? ==> r.error == ShareOutOfRange
    ensures r.Success? ==> r.value.volume1 == volume1 && r.value.volume2 == volume2
                           && r.value.code1 == code1 && r.value.code2 == code2
                           && r.value.profilePercentages == ProfilePercentages
  {
    if volume1 <= 0.0 || volume1 >= 1.0 || volume2 <= 0.0 || volume2 >= 1.0 then Failure(ShareOutOfRange)
    else Success(Builder(code1, code2, volume1, volume2, refresh, ProfilePercentages))
  }

  /** The `temperature` column of a loaded profile. */
  function Temperatures(profile: seq<Observation>): (t: seq<real>)
    ensures |t| == |profile|
  {
    seq(|profile|, i requires 0 <= i < |profile| => profile[i].temperature)
  }

  /** The `recovery` column of a loaded profile, as reals. */
  function Recoveries(profile: seq<Observation>): (r: seq<real>)
    ensures |r| == |profile|
  {
    seq(|profile|, i requires 0 <= i < |profile| => profile[i].recovery as real)
  }

  /**
   * scipy's precondition for `pchip(x, y)`: at least two abscissae, strictly increasing; so every
   * abscissa is below every later one and no value repeats.
   */
  function PchipAccepts(x: seq<real>): (accepted: bool)
    ensures accepted <==> |x| >= 2 && forall i, j :: 0 <= i < j < |x| ==> x[i] < x[j]
  {
    StrictlyIncreasingPairwise(x);
    |x| >= 2 && StrictlyIncreasing(x)
  }

  /**
   * `get_recovery_interpolation`: the profile's grid, then the interpolant fitted to
   * (temperature, recovery) evaluated at each grid temperature, indexed by temperature.
   */
  function RecoveryInterpolation(profile: seq<Observation>, fit: real -> real): (r: Result<Curve, Error>)
    ensures r.Success? <==> PchipAccepts(Temperatures(profile))
    ensures |profile| == 0 ==> r == Failure(UndefinedBound)
    ensures r.Success? ==> forall t :: t in r.value <==> t in DiscreteTemperatureRange(Temperatures(profile)).value
    ensures r.Success? ==> forall t :: t in r.value ==> r.value[t] == fit(t as real)
  {
    var temperatures := Temperatures(profile);
    match DiscreteTemperatureRange(temperatures)
    case None => Failure(UndefinedBound)
    case Some(grid) =>
      if !PchipAccepts(temperatures) then Failure(InterpolationInput)
      else Success(map t | t in grid :: fit(t as real))
  }

  /** The interpolant never decreases between two temperatures of `[lo, hi]`. */
  ghost predicate NondecreasingOn(fit: real -> real, lo: real, hi: real)
  {
    forall x, y :: lo <= x <= y <= hi ==> fit(x) <= fit(y)
  }

  /** The interpolant is nonnegative on `[lo, hi]`. */
  ghost predicate NonnegativeOn(fit: real -> real, lo: real, hi: real)
  {
    forall x :: lo <= x <= hi ==> 0.0 <= fit(x)
  }

  /**
   * Every grid temperature lies within the observed range, so an interpolant that is nonnegative
   * and nondecreasing there yields a nonnegative, nondecreasing sampled curve.
   */
  lemma RecoveryInterpolationNondecreasing(profile: seq<Observation>, fit: real -> real)
    requires RecoveryInterpolation(profile, fit).Success?
    requires NondecreasingOn(fit, ColumnMin(Temperatures(profile)).value, ColumnMax(Temperatures(profile)).value)
    requires NonnegativeOn(fit, ColumnMin(Temperatures(profile)).value, ColumnMax(Temperatures(profile)).value)
    ensures CurveNondecreasing(RecoveryInterpolation(profile, fit).value)
    ensures CurveNonnegative(RecoveryInterpolation(profile, fit).value)
  {
    var temperatures := Temperatures(profile);
    var curve := RecoveryInterpolation(profile, fit).value;
    var lo, hi := ColumnMin(temperatures).value, ColumnMax(temperatures).value;
    forall t | t in curve ensures lo <= t as real <= hi {
      IntegerRangeMembers(lo, hi, t);
    }
  }

  /** A loaded profile: the cleaned rows of `code` under the casts of the two columns. */
  function LoadedProfile(table: seq<Row>, code: string, cast: Row -> Observation): (p: seq<Observation>)
    ensures |p| == |CleanRows(table, code)|
  {
    var rows := CleanRows(table, code);
    seq(|rows|, i requires 0 <= i < |rows| => cast(rows[i]))
  }

  /**
   * The merged frame of two profiles: both interpolations, or the first failure, merged over the
   * pair's joint grid.
   */
  function PairedRecovery(profile1: seq<Observation>, profile2: seq<Observation>,
                          fit1: real -> real, fit2: real -> real): (r: Result<seq<MergedRow>, Error>)
    ensures r.Success? <==> PchipAccepts(Temperatures(profile1)) && PchipAccepts(Temperatures(profile2))
    ensures r.Success? ==>
      r.value == Merged(GlobalTemperatureRange(Temperatures(profile1), Temperatures(profile2)).value,
                        RecoveryInterpolation(profile1, fit1).value, RecoveryInterpolation(profile2, fit2).value)
  {
    var recovery1 := RecoveryInterpolation(profile1, fit1);
    var recovery2 := RecoveryInterpolation(profile2, fit2);
    if recovery1.Failure? then Failure(recovery1.error)
    else if recovery2.Failure? then Failure(recovery2.error)
    else
      var grid := GlobalTemperatureRange(Temperatures(profile1), Temperatures(profile2)).value;
      Success(Merged(grid, recovery1.value, recovery2.value))
  }

  /**
   * When both interpolants are nonnegative and nondecreasing over their observed ranges and the
   * shares are nonnegative, the blended recovery column never decreases along the joint grid.
   */
  lemma BlendedRecoveryNondecreasing(profile1: seq<Observation>, profile2: seq<Observation>,
                                     fit1: real -> real, fit2: real -> real, share1: real, share2: real)
    requires PairedRecovery(profile1, profile2, fit1, fit2).Success?
    requires NondecreasingOn(fit1, ColumnMin(Temperatures(profile1)).value, ColumnMax(Temperatures(profile1)).value)
    requires NonnegativeOn(fit1, ColumnMin(Temperatures(profile1)).value, ColumnMax(Temperatures(profile1)).value)
    requires NondecreasingOn(fit2, ColumnMin(Temperatures(profile2)).value, ColumnMax(Temperatures(profile2)).value)
    requires NonnegativeOn(fit2, ColumnMin(Temperatures(profile2)).value, ColumnMax(Temperatures(profile2)).value)
    requires 0.0 <= share1 && 0.0 <= share2
    ensures Nondecreasing(BlendColumn(PairedRecovery(profile1, profile2, fit1, fit2).value, share1, share2))
  {
    var t1, t2 := Temperatures(profile1), Temperatures(profile2);
    RecoveryInterpolationNondecreasing(profile1, fit1);
    RecoveryInterpolationNondecreasing(profile2, fit2);
    GlobalRangeBounds(t1, t2);
    var grid := GlobalTemperatureRange(t1, t2).value;
    MergedColumnsNondecreasing(grid, RecoveryInterpolation(profile1, fit1).value,
                               RecoveryInterpolation(profile2, fit2).value);
    BlendNondecreasing(PairedRecovery(profile1, profile2, fit1, fit2).value, share1, share2);
  }

  /**
   * `compute_blended_profile`: adds the `blended` column to the merged frame, fits the inverse
   * interpolant (blended recovery to temperature), evaluates it at the builder's percentiles and
   * marks as undefined every percentile above the blend's recovery maximum.
   */
  method ComputeBlendedProfile(b: Builder, pair: PairFrame, share1: real, share2: real,
                               profile1: seq<Observation>, profile2: seq<Observation>,
                               inverse: real -> real)
    returns (r: Result<BlendedFrame, Error>)
    modifies pair
    ensures pair.rows == old(pair.rows)
    ensures pair.blended == Some(BlendColumn(pair.rows, share1, share2))
    ensures r.Success? <==> PchipAccepts(BlendColumn(pair.rows, share1, share2))
    ensures r.Failure? ==> r.error == InterpolationInput
    ensures r.Success? ==>
      && fresh(r.value)
      && r.value.recovery == b.profilePercentages
      && r.value.temperature ==
           CappedTemperatures(b.profilePercentages, InverseAt(b.profilePercentages, inverse),
                              RecoveryMax(ColumnMax(Recoveries(profile1)), share1,
                                          ColumnMax(Recoveries(profile2)), share2))
  {
    pair.AddBlendedColumn(share1, share2);
    var blended := pair.blended.value;
    if !PchipAccepts(blended) {
      return Failure(InterpolationInput);
    }
    var temperatures := InverseAt(b.profilePercentages, inverse);
    var blendedFrame := new BlendedFrame(b.profilePercentages, temperatures);
    var recoveryMax := RecoveryMax(ColumnMax(Recoveries(profile1)), share1, ColumnMax(Recoveries(profile2)), share2);
    blendedFrame.SetUndefinedAbove(recoveryMax);
    return Success(blendedFrame);
  }

  /**
   * `run`: loads both profiles from the cached table, samples their interpolations, merges them
   * over the joint grid and computes the blended profile with the builder's shares.
   */
  method Run(b: Builder, table: seq<Row>, cast: Row -> Observation,
             fit1: real -> real, fit2: real -> real, inverse: real -> real)
    returns (r: Result<BlendedFrame, Error>)
    ensures
      var profile1 := LoadedProfile(table, b.code1, cast);
      var profile2 := LoadedProfile(table, b.code2, cast);
      var paired := PairedRecovery(profile1, profile2, fit1, fit2);
      && (paired.Failure? ==> r.Failure? && r.error == paired.error)
      && (paired.Success? ==> (r.Success? <==> PchipAccepts(BlendColumn(paired.value, b.volume1, b.volume2))))
      && (r.Success? ==>
            && fresh(r.value)
            && r.value.recovery == b.profilePercentages
            && r.value.temperature ==
                 CappedTemperatures(b.profilePercentages, InverseAt(b.profilePercentages, inverse),
                                    RecoveryMax(ColumnMax(Recoveries(profile1)), b.volume1,
                                                ColumnMax(Recoveries(profile2)), b.volume2)))
  {
    var rows1 := LoadProcessedProfile(table, b.code1);
    var rows2 := LoadProcessedProfile(table, b.code2);
    var profile1 := seq(|rows1|, i requires 0 <= i < |rows1| => cast(rows1[i]));
    var profile2 := seq(|rows2|, i requires 0 <= i < |rows2| => cast(rows2[i]));
    assert profile1 == LoadedProfile(table, b.code1, cast);
    assert profile2 == LoadedProfile(table, b.code2, cast);

    var recovery1 := RecoveryInterpolation(profile1, fit1);
    if recovery1.Failure? {
      return Failure(recovery1.error);
    }
    var recovery2 := RecoveryInterpolation(profile2, fit2);
    if recovery2.Failure? {
      return Failure(recovery2.error);
    }

    var globalRange := GlobalTemperatureRange(Temperatures(profile1), Temperatures(profile2)).value;
    var pairedRecovery := MergeInterpolationsOverRange(recovery1.value, recovery2.value, globalRange);
    var pair := new PairFrame(pairedRecovery);
    r := ComputeBlendedProfile(b, pair, b.volume1, b.volume2, profile1, profile2, inverse);
  }

  /**
   * The temperature column `Run` returns for a builder made by the constructor: percentile `p` is
   * undefined exactly when it exceeds the recovery maximum, otherwise it is the inverse
   * interpolant's value at `p`; and every percentile above an undefined one is undefined too.
   */
  lemma BuiltProfileTemperatures(b: Builder, inverse: real -> real, recoveryMax: Option<real>, i: nat, j: nat)
    requires NewBuilder(b.code1, b.code2, b.volume1, b.volume2, b.refresh) == Success(b)
    requires i <= j < |b.profilePercentages|
    ensures var t := CappedTemperatures(b.profilePercentages, InverseAt(b.profilePercentages, inverse), recoveryMax);
      && (t[i].None? <==> recoveryMax.Some? && b.profilePercentages[i] as real > recoveryMax.value)
      && (t[i].Some? ==> t[i].value == inverse(b.profilePercentages[i] as real))
      && (t[i].None? ==> t[j].None?)
  {
    assert b.profilePercentages == ProfilePercentages;
    ProfileTemperaturesAt(inverse, recoveryMax, i);
    if ProfileTemperatures(inverse, recoveryMax)[i].None? {
      UndefinedFormSuffix(inverse, recoveryMax, i, j);
    }
  }
}
