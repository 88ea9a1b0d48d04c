/** One row of the `police_logs` table as the dashboard loads it with
    `SELECT * FROM police_logs`, and the errors the in-memory logic can raise. */
module Records {
  import opened Wrappers

  /** A traffic stop. Every column is nullable; `None` stands for NULL / NaN.
      Date and time are kept as opaque text: no in-memory logic looks into them. */
  datatype StopRecord = StopRecord(
    stopDate: Option<string>,
    stopTime: Option<string>,
    countryName: Option<string>,
    driverGender: Option<string>,
    driverAge: Option<int>,
    driverRace: Option<string>,
    searchConducted: Option<int>,
    drugsRelatedStop: Option<int>,
    stopDuration: Option<string>,
    stopOutcome: Option<string>,
    violation: Option<string>,
    vehicleNumber: Option<string>)

  /** What the in-memory logic raises. A frame built from an empty fetch has no
      columns at all, so selecting a column of it raises `KeyError`, and so does
      `mode()[0]` on a column whose values are all null. */
  datatype Error =
    | MissingColumn(column: string)
    | EmptyMode(column: string)

  /** The `stop_outcome` column. */
  function Outcomes(rows: seq<StopRecord>): (col: seq<Option<string>>)
    ensures |col| == |rows| && forall i :: 0 <= i < |rows| ==> col[i] == rows[i].stopOutcome
  {
    seq(|rows|, i requires 0 <= i < |rows| => rows[i].stopOutcome)
  }

  /** The `violation` column. */
  function Violations(rows: seq<StopRecord>): (col: seq<Option<string>>)
    ensures |col| == |rows| && forall i :: 0 <= i < |rows| ==> col[i] == rows[i].violation
  {
    seq(|rows|, i requires 0 <= i < |rows| => rows[i].violation)
  }

  /** The `driver_gender` column. */
  function Genders(rows: seq<StopRecord>): (col: seq<Option<string>>)
    ensures |col| == |rows| && forall i :: 0 <= i < |rows| ==> col[i] == rows[i].driverGender
  {
    seq(|rows|, i requires 0 <= i < |rows| => rows[i].driverGender)
  }

  /** The `stop_duration` column. */
  function Durations(rows: seq<StopRecord>): (col: seq<Option<string>>)
    ensures |col| == |rows| && forall i :: 0 <= i < |rows| ==> col[i] == rows[i].stopDuration
  {
    seq(|rows|, i requires 0 <= i < |rows| => rows[i].stopDuration)
  }
}
