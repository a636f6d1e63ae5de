/**
 * Integer temperature grids of the profile builder: `np.arange(math.ceil(lo), math.floor(hi), 1)`
 * over one profile's temperature column or over the columns of a pair of profiles.
 *
 * pandas returns NaN for the minimum or maximum of an empty column and `math.ceil(NaN)` raises
 * `ValueError`; here NaN is `None` and a grid that cannot be built is `None`.
 */
module TemperatureGrid {
  import opened Wrappers

  /** `math.floor`: the largest integer not above `x`. */
  function Floor(x: real): (f: int)
    ensures f as real <= x < f as real + 1.0
  {
    x.Floor
  }

  /** `math.ceil`: the smallest integer not below `x`. */
  function Ceil(x: real): (c: int)
    ensures x <= c as real < x + 1.0
  {
    -((-x).Floor)
  }

  /** `np.arange(lo, hi, 1)`: the consecutive integers from `lo` up to, but excluding, `hi`. */
  function Arange(lo: int, hi: int): (r: seq<int>)
    ensures |r| == if lo < hi then hi - lo else 0
    ensures forall i :: 0 <= i < |r| ==> r[i] == lo + i
    decreases hi - lo
  {
    if lo >= hi then [] else [lo] + Arange(lo + 1, hi)
  }

  lemma ArangeMembers(lo: int, hi: int, t: int)
    ensures t in Arange(lo, hi) <==> lo <= t < hi
  {
    if lo <= t < hi {
      assert Arange(lo, hi)[t - lo] == t;
    }
  }

  /** `Series.min()` of a float column; `None` is the NaN of an empty column. */
  function ColumnMin(s: seq<real>): (m: Option<real>)
    ensures m.None? <==> |s| == 0
    ensures m.Some? ==> exists i :: 0 <= i < |s| && s[i] == m.value
    ensures m.Some? ==> forall i :: 0 <= i < |s| ==> m.value <= s[i]
  {
    if |s| == 0 then None
    else
      var rest := ColumnMin(s[1..]);
      if rest.None? || s[0] <= rest.value then Some(s[0])
      else
        ghost var k :| 0 <= k < |s[1..]| && s[1..][k] == rest.value;
        assert s[k + 1] == rest.value;
        rest
  }

  /** `Series.max()` of a float column; `None` is the NaN of an empty column. */
  function ColumnMax(s: seq<real>): (m: Option<real>)
    ensures m.None? <==> |s| == 0
    ensures m.Some? ==> exists i :: 0 <= i < |s| && s[i] == m.value
    ensures m.Some? ==> forall i :: 0 <= i < |s| ==> s[i] <= m.value
  {
    if |s| == 0 then None
    else
      var rest := ColumnMax(s[1..]);
      if rest.None? || s[0] >= rest.value then Some(s[0])
      else
        ghost var k :| 0 <= k < |s[1..]| && s[1..][k] == rest.value;
        assert s[k + 1] == rest.value;
        rest
  }

  /**
   * Python's builtin `min(a, b)`: it keeps `a` unless `b < a`, and every comparison with NaN is
   * false, so a NaN first argument wins and a NaN second argument is ignored.
   */
  function PyMin(a: Option<real>, b: Option<real>): (r: Option<real>)
    ensures a.None? ==> r.None?
    ensures a.Some? && b.None? ==> r == a
    ensures a.Some? && b.Some? ==> r.Some? && r.value <= a.value && r.value <= b.value
                                   && (r.value == a.value || r.value == b.value)
  {
    if a.Some? && b.Some? && b.value < a.value then b else a
  }

  /** Python's builtin `max(a, b)`: it keeps `a` unless `b > a`; comparisons with NaN are false. */
  function PyMax(a: Option<real>, b: Option<real>): (r: Option<real>)
    ensures a.None? ==> r.None?
    ensures a.Some? && b.None? ==> r == a
    ensures a.Some? && b.Some? ==> r.Some? && a.value <= r.value && b.value <= r.value
                                   && (r.value == a.value || r.value == b.value)
  {
    if a.Some? && b.Some? && b.value > a.value then b else a
  }

  function Min(a: real, b: real): real { if a <= b then a else b }

  function Max(a: real, b: real): real { if a >= b then a else b }

  /** `np.arange(math.ceil(lo), math.floor(hi), 1)`; `math.ceil`/`math.floor` of NaN raise. */
  function IntegerRange(lo: Option<real>, hi: Option<real>): (r: Option<seq<int>>)
    ensures r.None? <==> lo.None? || hi.None?
    ensures r.Some? ==>
      && |r.value| == (if Ceil(lo.value) < Floor(hi.value) then Floor(hi.value) - Ceil(lo.value) else 0)
      && (forall i :: 0 <= i < |r.value| ==> r.value[i] == Ceil(lo.value) + i)
  {
    if lo.None? || hi.None? then None else Some(Arange(Ceil(lo.value), Floor(hi.value)))
  }

  /**
   * The integers `t` with `lo <= t` and `t + 1 <= hi`: the half-open grid drops `floor(hi)`
   * even when `hi` is itself an integer.
   */
  lemma IntegerRangeMembers(lo: real, hi: real, t: int)
    ensures t in IntegerRange(Some(lo), Some(hi)).value <==> lo <= t as real && t as real + 1.0 <= hi
  {
    ArangeMembers(Ceil(lo), Floor(hi), t);
  }

  /** `get_discrete_temperature_range`: the grid of one profile's temperature column. */
  function DiscreteTemperatureRange(temperatures: seq<real>): (r: Option<seq<int>>)
    ensures r.None? <==> |temperatures| == 0
    ensures r.Some? ==>
      var lo := Ceil(ColumnMin(temperatures).value);
      var hi := Floor(ColumnMax(temperatures).value);
      && |r.value| == (if lo < hi then hi - lo else 0)
      && (forall i :: 0 <= i < |r.value| ==> r.value[i] == lo + i)
  {
    IntegerRange(ColumnMin(temperatures), ColumnMax(temperatures))
  }

  /**
   * `get_global_temperature_range`: the grid over the builtin `min`/`max` of the two columns'
   * extremes. An empty first column fails; an empty second column is ignored by `min`/`max`.
   */
  function GlobalTemperatureRange(temperatures1: seq<real>, temperatures2: seq<real>): (r: Option<seq<int>>)
    ensures r.None? <==> |temperatures1| == 0
    ensures |temperatures1| > 0 && |temperatures2| == 0 ==> r == DiscreteTemperatureRange(temperatures1)
  {
    IntegerRange(PyMin(ColumnMin(temperatures1), ColumnMin(temperatures2)),
                 PyMax(ColumnMax(temperatures1), ColumnMax(temperatures2)))
  }

  /**
   * A profile's grid holds exactly the integers `t` that lie at or above some observed
   * temperature while `t + 1` lies at or below some observed temperature.
   */
  lemma DiscreteRangeMembers(temperatures: seq<real>, t: int)
    requires |temperatures| > 0
    ensures t in DiscreteTemperatureRange(temperatures).value <==>
      (exists i :: 0 <= i < |temperatures| && temperatures[i] <= t as real) &&
      (exists j :: 0 <= j < |temperatures| && t as real + 1.0 <= temperatures[j])
  {
    var lo, hi := ColumnMin(temperatures).value, ColumnMax(temperatures).value;
    IntegerRangeMembers(lo, hi, t);
    if (exists i :: 0 <= i < |temperatures| && temperatures[i] <= t as real) &&
       (exists j :: 0 <= j < |temperatures| && t as real + 1.0 <= temperatures[j]) {
      var i :| 0 <= i < |temperatures| && temperatures[i] <= t as real;
      var j :| 0 <= j < |temperatures| && t as real + 1.0 <= temperatures[j];
      assert lo <= temperatures[i] && temperatures[j] <= hi;
    }
  }

  /** A column's minimum is its only element that no element undercuts. */
  lemma ColumnMinUnique(s: seq<real>, m: real)
    requires m in s && forall i :: 0 <= i < |s| ==> m <= s[i]
    ensures ColumnMin(s) == Some(m)
  {
  }

  /** A column's maximum is its only element that no element exceeds. */
  lemma ColumnMaxUnique(s: seq<real>, m: real)
    requires m in s && forall i :: 0 <= i < |s| ==> s[i] <= m
    ensures ColumnMax(s) == Some(m)
  {
  }

  /** The minimum of a concatenation is the smaller of the two minima. */
  lemma ColumnMinConcat(s1: seq<real>, s2: seq<real>)
    requires |s1| > 0 && |s2| > 0
    ensures ColumnMin(s1 + s2) == PyMin(ColumnMin(s1), ColumnMin(s2))
  {
    var m := PyMin(ColumnMin(s1), ColumnMin(s2)).value;
    var both := s1 + s2;
    var i1 :| 0 <= i1 < |s1| && s1[i1] == ColumnMin(s1).value;
    var i2 :| 0 <= i2 < |s2| && s2[i2] == ColumnMin(s2).value;
    assert both[i1] == s1[i1] && both[|s1| + i2] == s2[i2];
    assert m in both;
    forall i | 0 <= i < |both| ensures m <= both[i] {
      if i < |s1| { assert both[i] == s1[i]; } else { assert both[i] == s2[i - |s1|]; }
    }
    ColumnMinUnique(both, m);
  }

  /** The maximum of a concatenation is the larger of the two maxima. */
  lemma ColumnMaxConcat(s1: seq<real>, s2: seq<real>)
    requires |s1| > 0 && |s2| > 0
    ensures ColumnMax(s1 + s2) == PyMax(ColumnMax(s1), ColumnMax(s2))
  {
    var m := PyMax(ColumnMax(s1), ColumnMax(s2)).value;
    var both := s1 + s2;
    var i1 :| 0 <= i1 < |s1| && s1[i1] == ColumnMax(s1).value;
    var i2 :| 0 <= i2 < |s2| && s2[i2] == ColumnMax(s2).value;
    assert both[i1] == s1[i1] && both[|s1| + i2] == s2[i2];
    assert m in both;
    forall i | 0 <= i < |both| ensures both[i] <= m {
      if i < |s1| { assert both[i] == s1[i]; } else { assert both[i] == s2[i - |s1|]; }
    }
    ColumnMaxUnique(both, m);
  }

  /** For two nonempty columns the joint grid is the grid of both columns taken together. */
  lemma GlobalRangeIsRangeOfUnion(temperatures1: seq<real>, temperatures2: seq<real>)
    requires |temperatures1| > 0 && |temperatures2| > 0
    ensures GlobalTemperatureRange(temperatures1, temperatures2) ==
            DiscreteTemperatureRange(temperatures1 + temperatures2)
  {
    ColumnMinConcat(temperatures1, temperatures2);
    ColumnMaxConcat(temperatures1, temperatures2);
  }

  /**
   * The joint grid of two nonempty columns runs over the consecutive integers from
   * `ceil(min(min1, min2))` up to, but excluding, `floor(max(max1, max2))`.
   */
  lemma GlobalRangeBounds(temperatures1: seq<real>, temperatures2: seq<real>)
    requires |temperatures1| > 0 && |temperatures2| > 0
    ensures
      var lo := Ceil(Min(ColumnMin(temperatures1).value, ColumnMin(temperatures2).value));
      var hi := Floor(Max(ColumnMax(temperatures1).value, ColumnMax(temperatures2).value));
      var g := GlobalTemperatureRange(temperatures1, temperatures2);
      && g.Some?
      && |g.value| == (if lo < hi then hi - lo else 0)
      && (forall i :: 0 <= i < |g.value| ==> g.value[i] == lo + i)
  {
  }

  /** Each profile's own grid is contained in the joint grid of the pair. */
  lemma GlobalRangeContainsEach(temperatures1: seq<real>, temperatures2: seq<real>, t: int)
    requires |temperatures1| > 0 && |temperatures2| > 0
    ensures t in DiscreteTemperatureRange(temperatures1).value ==>
              t in GlobalTemperatureRange(temperatures1, temperatures2).value
    ensures t in DiscreteTemperatureRange(temperatures2).value ==>
              t in GlobalTemperatureRange(temperatures1, temperatures2).value
  {
    var both := temperatures1 + temperatures2;
    GlobalRangeIsRangeOfUnion(temperatures1, temperatures2);
    DiscreteRangeMembers(temperatures1, t);
    DiscreteRangeMembers(temperatures2, t);
    DiscreteRangeMembers(both, t);
    if t in DiscreteTemperatureRange(temperatures1).value {
      var i :| 0 <= i < |temperatures1| && temperatures1[i] <= t as real;
      var j :| 0 <= j < |temperatures1| && t as real + 1.0 <= temperatures1[j];
      assert both[i] == temperatures1[i] && both[j] == temperatures1[j];
    }
    if t in DiscreteTemperatureRange(temperatures2).value {
      var i :| 0 <= i < |temperatures2| && temperatures2[i] <= t as real;
      var j :| 0 <= j < |temperatures2| && t as real + 1.0 <= temperatures2[j];
      assert both[|temperatures1| + i] == temperatures2[i];
      assert both[|temperatures1| + j] == temperatures2[j];
    }
  }

  /** Swapping the two nonempty profiles does not change the joint grid. */
  lemma GlobalRangeSymmetric(temperatures1: seq<real>, temperatures2: seq<real>)
    requires |temperatures1| > 0 && |temperatures2| > 0
    ensures GlobalTemperatureRange(temperatures1, temperatures2) ==
            GlobalTemperatureRange(temperatures2, temperatures1)
  {
    var lo1, lo2 := ColumnMin(temperatures1).value, ColumnMin(temperatures2).value;
    var hi1, hi2 := ColumnMax(temperatures1).value, ColumnMax(temperatures2).value;
    assert PyMin(Some(lo1), Some(lo2)) == PyMin(Some(lo2), Some(lo1));
    assert PyMax(Some(hi1), Some(hi2)) == PyMax(Some(hi2), Some(hi1));
  }
}
