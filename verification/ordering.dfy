/** Order properties of columns of numbers. */
module Ordering {

  /** Every later entry is at least as large as every earlier one. */
  ghost predicate Nondecreasing(s: seq<real>)
  {
    forall i, j :: 0 <= i <= j < |s| ==> s[i] <= s[j]
  }

  /** Adjacent entries strictly increase (the check scipy applies to interpolation abscissae). */
  predicate StrictlyIncreasing(s: seq<real>)
  {
    forall i :: 0 < i < |s| ==> s[i - 1] < s[i]
  }

  /** Adjacent strict increase makes every later entry larger than every earlier one. */
  lemma {:induction false} StrictlyIncreasingPairwise(s: seq<real>)
    ensures StrictlyIncreasing(s) <==> forall i, j :: 0 <= i < j < |s| ==> s[i] < s[j]
  {
    if StrictlyIncreasing(s) {
      forall i, j | 0 <= i < j < |s| ensures s[i] < s[j] {
        StrictlyIncreasingFrom(s, i, j);
      }
    }
  }

  lemma {:induction false} StrictlyIncreasingFrom(s: seq<real>, i: nat, j: nat)
    requires StrictlyIncreasing(s) && i < j < |s|
    ensures s[i] < s[j]
    decreases j - i
  {
    if i + 1 < j {
      StrictlyIncreasingFrom(s, i + 1, j);
    }
  }

  /** An integer grid whose entries strictly increase. */
  ghost predicate IncreasingGrid(g: seq<int>)
  {
    forall i, j :: 0 <= i < j < |g| ==> g[i] < g[j]
  }
}
