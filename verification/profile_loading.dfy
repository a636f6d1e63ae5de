/**
 * Row cleaning of `load_processed_profile`: of the cached profile table keep the rows of one oil
 * code, turn the initial-boiling-point label `IBP` into recovery 0 and drop the rows whose
 * temperature cell is the blank marker `-`.
 *
 * Cells are kept as the text read from the table; the casts to `int` and `float64` that follow
 * the cleaning are a parameter of the pipeline (see `ProfileBuilder`).
 */
module ProfileLoading {

  /** One row of the profile table, restricted and renamed to `recovery`, `temperature`, `code`. */
  datatype Row = Row(recovery: string, temperature: string, code: string)

  /** A cleaned row after the casts: recovery percent, temperature in degrees Celsius, oil code. */
  datatype Observation = Observation(recovery: int, temperature: real, code: string)

  const InitialBoilingPoint: string := "IBP"
  const BlankTemperature: string := "-"

  /** The recovery cell with the initial-boiling-point label replaced by 0. */
  function RecoveryZeroAtIbp(r: Row): (z: Row)
    ensures z.recovery == (if r.recovery == InitialBoilingPoint then "0" else r.recovery)
    ensures z.temperature == r.temperature && z.code == r.code
  {
    if r.recovery == InitialBoilingPoint then r.(recovery := "0") else r
  }

  /** `profile_df[profile_df['Code'] == code]`: the rows of one code, in table order. */
  function SelectCode(rows: seq<Row>, code: string): (s: seq<Row>)
    ensures |s| <= |rows|
    ensures forall r :: r in s ==> r in rows && r.code == code
    ensures forall r :: r in rows && r.code == code ==> r in s
  {
    if rows == [] then []
    else (if rows[0].code == code then [rows[0]] else []) + SelectCode(rows[1..], code)
  }

  /** The recovery column after `profile_df['recovery'][profile_df['recovery'] == 'IBP'] = 0`. */
  function WithIbpAsZero(rows: seq<Row>): (s: seq<Row>)
    ensures |s| == |rows|
    ensures forall i :: 0 <= i < |s| ==>
      s[i].recovery != InitialBoilingPoint && s[i].temperature == rows[i].temperature && s[i].code == rows[i].code
    ensures forall i :: 0 <= i < |s| ==> s[i] == RecoveryZeroAtIbp(rows[i])
  {
    if rows == [] then [] else [RecoveryZeroAtIbp(rows[0])] + WithIbpAsZero(rows[1..])
  }

  /** The rows left by `profile_df.drop(blank_temps)`, where `blank_temps` are the `-` rows. */
  function WithoutBlankTemperatures(rows: seq<Row>): (s: seq<Row>)
    ensures |s| <= |rows|
    ensures forall r :: r in s ==> r in rows && r.temperature != BlankTemperature
    ensures forall r :: r in rows && r.temperature != BlankTemperature ==> r in s
  {
    if rows == [] then []
    else (if rows[0].temperature == BlankTemperature then [] else [rows[0]]) + WithoutBlankTemperatures(rows[1..])
  }

  /**
   * The cleaned profile in one pass over the table: a row is kept, relabelled, exactly when it has
   * the requested code and a temperature.
   */
  function CleanRows(rows: seq<Row>, code: string): (s: seq<Row>)
    ensures forall r :: r in s ==> r.code == code && r.recovery != InitialBoilingPoint
                                   && r.temperature != BlankTemperature
  {
    if rows == [] then []
    else
      (if rows[0].code == code && rows[0].temperature != BlankTemperature
       then [RecoveryZeroAtIbp(rows[0])] else [])
      + CleanRows(rows[1..], code)
  }

  /** Selecting, relabelling and dropping, in the source's order, is the one-pass cleaning. */
  lemma {:induction false} CleaningStepsAreCleanRows(rows: seq<Row>, code: string)
    ensures WithoutBlankTemperatures(WithIbpAsZero(SelectCode(rows, code))) == CleanRows(rows, code)
  {
    if rows != [] {
      CleaningStepsAreCleanRows(rows[1..], code);
      var head := if rows[0].code == code then [rows[0]] else [];
      var tail := SelectCode(rows[1..], code);
      assert SelectCode(rows, code) == head + tail;
      DistributeIbp(head, tail);
      DistributeBlank(WithIbpAsZero(head), WithIbpAsZero(tail));
    }
  }

  lemma {:induction false} DistributeIbp(a: seq<Row>, b: seq<Row>)
    ensures WithIbpAsZero(a + b) == WithIbpAsZero(a) + WithIbpAsZero(b)
  {
    if a != [] {
      assert (a + b)[1..] == a[1..] + b;
      DistributeIbp(a[1..], b);
    } else {
      assert a + b == b;
    }
  }

  lemma {:induction false} DistributeBlank(a: seq<Row>, b: seq<Row>)
    ensures WithoutBlankTemperatures(a + b) == WithoutBlankTemperatures(a) + WithoutBlankTemperatures(b)
  {
    if a != [] {
      assert (a + b)[1..] == a[1..] + b;
      DistributeBlank(a[1..], b);
    } else {
      assert a + b == b;
    }
  }

  /**
   * A row is in the cleaned profile exactly when it is the relabelled form of a table row that has
   * the requested code and a temperature.
   */
  lemma {:induction false} CleanRowsMembers(rows: seq<Row>, code: string, r: Row)
    ensures r in CleanRows(rows, code) <==>
      exists i :: 0 <= i < |rows| && rows[i].code == code && rows[i].temperature != BlankTemperature
                  && r == RecoveryZeroAtIbp(rows[i])
  {
    if rows != [] {
      CleanRowsMembers(rows[1..], code, r);
      if exists i :: 0 <= i < |rows| && rows[i].code == code && rows[i].temperature != BlankTemperature
                     && r == RecoveryZeroAtIbp(rows[i]) {
        var i :| 0 <= i < |rows| && rows[i].code == code && rows[i].temperature != BlankTemperature
                 && r == RecoveryZeroAtIbp(rows[i]);
        if i > 0 {
          assert rows[1..][i - 1] == rows[i];
        }
      }
      if r in CleanRows(rows[1..], code) {
        var i :| 0 <= i < |rows[1..]| && rows[1..][i].code == code
                 && rows[1..][i].temperature != BlankTemperature && r == RecoveryZeroAtIbp(rows[1..][i]);
        assert rows[i + 1] == rows[1..][i];
      }
    }
  }

  /** A loaded profile: the table's rows under the pandas operations that change it in place. */
  class ProfileFrame {
    var rows: seq<Row>

    constructor (rows: seq<Row>)
      ensures this.rows == rows
    {
      this.rows := rows;
    }

    /** `profile_df['recovery'][profile_df['recovery'] == 'IBP'] = 0` */
    method SetIbpToZero()
      modifies this
      ensures rows == WithIbpAsZero(old(rows))
    {
      rows := WithIbpAsZero(rows);
    }

    /** `profile_df.drop(blank_temps, inplace=True)` */
    method DropBlankTemperatures()
      modifies this
      ensures rows == WithoutBlankTemperatures(old(rows))
    {
      rows := WithoutBlankTemperatures(rows);
    }
  }

  /**
   * `load_processed_profile` up to the casts: the rows of `code` in table order, `IBP` read as 0,
   * rows without a temperature dropped.
   */
  method LoadProcessedProfile(table: seq<Row>, code: string) returns (profile: seq<Row>)
    ensures profile == CleanRows(table, code)
    ensures forall r :: r in profile <==>
      exists i :: 0 <= i < |table| && table[i].code == code && table[i].temperature != BlankTemperature
                  && r == RecoveryZeroAtIbp(table[i])
  {
    var frame := new ProfileFrame(SelectCode(table, code));
    frame.SetIbpToZero();
    frame.DropBlankTemperatures();
    profile := frame.rows;
    CleaningStepsAreCleanRows(table, code);
    forall r ensures r in profile <==>
      exists i :: 0 <= i < |table| && table[i].code == code && table[i].temperature != BlankTemperature
                  && r == RecoveryZeroAtIbp(table[i])
    {
      CleanRowsMembers(table, code, r);
    }
  }
}
