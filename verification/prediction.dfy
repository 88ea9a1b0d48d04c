/** The "Predict Stop Outcome & Violation" form: the stop-duration choices it
    offers, the exact-match filter over the loaded table, the most common
    outcome and violation among the matches, and the two summary phrases. */
module Prediction {
  import opened Wrappers
  import opened Records
  import Seqs
  import Modes
  import Text

  /** A "0"/"1" choice of the form's yes/no select boxes. */
  datatype Flag = No | Yes

  /** `int(choice)`. */
  function FlagValue(f: Flag): (n: int)
  {
    if f == Yes then 1 else 0
  }

  /** The form fields that take part in the filter. `duration` is `None` when
      the duration select box has no options to choose from. */
  datatype FormInput = FormInput(
    gender: string,
    age: int,
    search: Flag,
    duration: Option<string>,
    drugs: Flag)

  /** The prediction summary's computed parts. */
  datatype Summary = Summary(outcome: string, violation: string, searchText: string, drugText: string)

  const DefaultDurations: seq<string> := ["0-15 min", "16-30 min"]
  const FallbackOutcome: string := "warning"
  const FallbackViolation: string := "speeding"

  /** The choices of the "Stop Duration" select box: the distinct present
      durations in order of first appearance, or two fixed buckets when the
      table is empty. */
  function DurationOptions(rows: seq<StopRecord>): (r: seq<string>)
    ensures |rows| == 0 ==> r == DefaultDurations
    ensures |rows| > 0 ==> forall i, j :: 0 <= i < j < |r| ==> r[i] != r[j]
    ensures |rows| > 0 ==>
      forall v :: v in r <==> exists k :: 0 <= k < |rows| && rows[k].stopDuration == Some(v)
    ensures |rows| > 0 ==>
      forall i, j :: 0 <= i < j < |r| ==>
        Some(r[i]) in Durations(rows) && Some(r[j]) in Durations(rows) &&
        Seqs.FirstIndex(Durations(rows), Some(r[i])) < Seqs.FirstIndex(Durations(rows), Some(r[j]))
  {
    if |rows| == 0 then DefaultDurations
    else
      var col := Durations(rows);
      assert forall v :: Some(v) in col <==> exists k :: 0 <= k < |rows| && rows[k].stopDuration == Some(v) by {
        forall v ensures Some(v) in col <==> exists k :: 0 <= k < |rows| && rows[k].stopDuration == Some(v) {
          if Some(v) in col {
            var k :| 0 <= k < |col| && col[k] == Some(v);
            assert rows[k].stopDuration == Some(v);
          }
        }
      }
      UniqueKeepsColumnOrder(col);
      Seqs.Unique(Seqs.DropNone(col))
  }

  /** The distinct present values of a column are listed in the order their
      first entries appear in the column. */
  lemma UniqueKeepsColumnOrder(col: seq<Option<string>>)
    ensures forall i, j :: 0 <= i < j < |Seqs.Unique(Seqs.DropNone(col))| ==>
      var u := Seqs.Unique(Seqs.DropNone(col));
      Some(u[i]) in col && Some(u[j]) in col &&
      Seqs.FirstIndex(col, Some(u[i])) < Seqs.FirstIndex(col, Some(u[j]))
  {
    var d := Seqs.DropNone(col);
    var u := Seqs.Unique(d);
    forall i, j | 0 <= i < j < |u|
      ensures Some(u[i]) in col && Some(u[j]) in col &&
              Seqs.FirstIndex(col, Some(u[i])) < Seqs.FirstIndex(col, Some(u[j]))
    {
      Seqs.DropNoneFirstIndex(col, u[i], u[j]);
    }
  }

  /** The five-way equality mask. A null field equals nothing, and a missing
      duration choice matches no row. */
  predicate Matches(row: StopRecord, input: FormInput)
  {
    && row.driverGender == Some(input.gender)
    && row.driverAge == Some(input.age)
    && row.searchConducted == Some(FlagValue(input.search))
    && input.duration.Some? && row.stopDuration == input.duration
    && row.drugsRelatedStop == Some(FlagValue(input.drugs))
  }

  /** `filtered_data`: the rows meeting all five equalities, in table order. */
  function Matching(rows: seq<StopRecord>, input: FormInput): (r: seq<StopRecord>)
    ensures forall x :: x in r <==> x in rows && Matches(x, input)
    ensures forall x :: multiset(r)[x] == if Matches(x, input) then multiset(rows)[x] else 0
    ensures Seqs.IsSubsequence(r, rows)
  {
    var r := Seqs.Filter(rows, x => Matches(x, input));
    assert forall x :: x in r <==> multiset(r)[x] > 0;
    r
  }

  /** The summary phrase for a yes/no choice: `yes if int(choice) else no`. */
  function Phrase(f: Flag, yes: string, no: string): (t: string)
    requires yes != no
    ensures t == yes <==> FlagValue(f) != 0
    ensures t == no <==> FlagValue(f) == 0
  {
    if FlagValue(f) != 0 then yes else no
  }

  function SearchText(f: Flag): (t: string)
  {
    Phrase(f, "A search was conducted", "No search was conducted")
  }

  function DrugText(f: Flag): (t: string)
  {
    Phrase(f, "was drug-related", "was not drug-related")
  }

  /** The summary computed from the matching rows: the fixed pair when there
      are none, otherwise `mode()[0]` of the outcomes and then of the
      violations, which raises when every one of them is null. */
  function Summarize(matched: seq<StopRecord>, search: Flag, drugs: Flag): (r: Result<Summary, Error>)
    ensures |matched| == 0 ==>
      r == Success(Summary(FallbackOutcome, FallbackViolation, SearchText(search), DrugText(drugs)))
    ensures |matched| > 0 ==>
      (r.Success? <==>
         (exists i :: 0 <= i < |matched| && matched[i].stopOutcome.Some?) &&
         (exists i :: 0 <= i < |matched| && matched[i].violation.Some?))
    ensures |matched| > 0 && r.Success? ==>
      Modes.IsLeastMode(Outcomes(matched), r.value.outcome) &&
      Modes.IsLeastMode(Violations(matched), r.value.violation)
    ensures r.Success? ==> r.value.searchText == SearchText(search) && r.value.drugText == DrugText(drugs)
    ensures r.Failure? ==>
      r.error == (if forall i :: 0 <= i < |matched| ==> matched[i].stopOutcome.None?
                  then EmptyMode("stop_outcome") else EmptyMode("violation"))
  {
    if |matched| == 0 then
      Success(Summary(FallbackOutcome, FallbackViolation, SearchText(search), DrugText(drugs)))
    else
      OutcomeModeExists(matched);
      ViolationModeExists(matched);
      match Modes.Mode(Outcomes(matched))
      case None => Failure(EmptyMode("stop_outcome"))
      case Some(outcome) =>
        match Modes.Mode(Violations(matched))
        case None => Failure(EmptyMode("violation"))
        case Some(violation) => Success(Summary(outcome, violation, SearchText(search), DrugText(drugs)))
  }

  /** `mode()` of the matching outcomes is non-empty exactly when one of them is present. */
  lemma OutcomeModeExists(matched: seq<StopRecord>)
    ensures Modes.Mode(Outcomes(matched)).Some? <==>
            exists i :: 0 <= i < |matched| && matched[i].stopOutcome.Some?
  {
    var col := Outcomes(matched);
    if Modes.Mode(col).None? {
      assert forall i :: 0 <= i < |matched| ==> col[i] == matched[i].stopOutcome;
    }
  }

  /** `mode()` of the matching violations is non-empty exactly when one of them is present. */
  lemma ViolationModeExists(matched: seq<StopRecord>)
    ensures Modes.Mode(Violations(matched)).Some? <==>
            exists i :: 0 <= i < |matched| && matched[i].violation.Some?
  {
    var col := Violations(matched);
    if Modes.Mode(col).None? {
      assert forall i :: 0 <= i < |matched| ==> col[i] == matched[i].violation;
    }
  }

  /** Submitting the form. An empty fetch yields a frame without columns, so
      the filter raises; otherwise the rows meeting all five equalities are
      summarized. */
  function Predict(rows: seq<StopRecord>, input: FormInput): (r: Result<Summary, Error>)
    ensures |rows| == 0 ==> r == Failure(MissingColumn("driver_gender"))
    ensures |rows| > 0 && |Matching(rows, input)| == 0 ==>
      r == Success(Summary(FallbackOutcome, FallbackViolation,
                           SearchText(input.search), DrugText(input.drugs)))
    ensures |Matching(rows, input)| > 0 ==>
      (r.Success? <==>
         (exists i :: 0 <= i < |Matching(rows, input)| && Matching(rows, input)[i].stopOutcome.Some?) &&
         (exists i :: 0 <= i < |Matching(rows, input)| && Matching(rows, input)[i].violation.Some?))
    ensures |Matching(rows, input)| > 0 && r.Success? ==>
      Modes.IsLeastMode(Outcomes(Matching(rows, input)), r.value.outcome) &&
      Modes.IsLeastMode(Violations(Matching(rows, input)), r.value.violation)
    ensures r.Success? ==>
      r.value.searchText == SearchText(input.search) && r.value.drugText == DrugText(input.drugs)
    ensures r.Failure? && |rows| > 0 ==>
      r.error == (if forall i :: 0 <= i < |Matching(rows, input)| ==> Matching(rows, input)[i].stopOutcome.None?
                  then EmptyMode("stop_outcome") else EmptyMode("violation"))
  {
    if |rows| == 0 then Failure(MissingColumn("driver_gender"))
    else Summarize(Matching(rows, input), input.search, input.drugs)
  }

  /** With rows loaded but none meeting the five equalities, the prediction is
      the fixed pair, not anything derived from the table. */
  lemma NoMatchFallsBack(rows: seq<StopRecord>, input: FormInput)
    requires |rows| > 0
    requires forall i :: 0 <= i < |rows| ==> !Matches(rows[i], input)
    ensures Predict(rows, input).Success?
    ensures Predict(rows, input).value.outcome == "warning"
    ensures Predict(rows, input).value.violation == "speeding"
  {
  }

  /** A row meeting all five equalities makes the match set non-empty, and when
      its outcome and violation are present the prediction succeeds with a
      most frequent outcome and violation of the matches. */
  lemma MatchingRowDrivesPrediction(rows: seq<StopRecord>, input: FormInput, i: nat)
    requires i < |rows| && Matches(rows[i], input)
    requires rows[i].stopOutcome.Some? && rows[i].violation.Some?
    ensures |Matching(rows, input)| > 0
    ensures Predict(rows, input).Success?
    ensures Modes.IsLeastMode(Outcomes(Matching(rows, input)), Predict(rows, input).value.outcome)
    ensures Modes.IsLeastMode(Violations(Matching(rows, input)), Predict(rows, input).value.violation)
  {
    var m := Matching(rows, input);
    assert rows[i] in m;
    var j :| 0 <= j < |m| && m[j] == rows[i];
    assert m[j].stopOutcome.Some? && m[j].violation.Some?;
    PredictSucceedsWith(rows, input, j);
  }

  /** One match with present outcome and violation is enough for success. */
  lemma PredictSucceedsWith(rows: seq<StopRecord>, input: FormInput, j: nat)
    requires j < |Matching(rows, input)|
    requires Matching(rows, input)[j].stopOutcome.Some? && Matching(rows, input)[j].violation.Some?
    ensures Predict(rows, input).Success?
  {
    var m := Matching(rows, input);
    assert exists k :: 0 <= k < |m| && m[k].stopOutcome.Some?;
    assert exists k :: 0 <= k < |m| && m[k].violation.Some?;
  }

  /** Three matching arrests against one matching warning predict an arrest. */
  lemma DominantOutcomePredicted(rows: seq<StopRecord>, input: FormInput)
    requires rows == [ Stop("Arrest"), Stop("Arrest"), Stop("Warning"), Stop("Arrest") ]
    requires input == FormInput("male", 27, No, Some("0-15 min"), No)
    ensures Predict(rows, input).Success?
    ensures Predict(rows, input).value.outcome == "Arrest"
  {
    assert forall i :: 0 <= i < |rows| ==> Matches(rows[i], input);
    Seqs.FilterAll(rows, x => Matches(x, input));
    assert Matching(rows, input) == rows;
    var col := Outcomes(rows);
    assert col[0] == Some("Arrest") && col[1] == Some("Arrest");
    assert col[2] == Some("Warning") && col[3] == Some("Arrest");
    ArrestOutvotesWarning(col);
    assert Violations(rows)[0] == Some("Speeding");
    PredictSucceedsWith(rows, input, 0);
    PredictedOutcomeIsMode(rows, input);
  }

  /** On success with matches, the predicted outcome and violation are exactly
      what `Mode` returns for the matching rows. */
  lemma PredictedOutcomeIsMode(rows: seq<StopRecord>, input: FormInput)
    ensures |Matching(rows, input)| > 0 && Predict(rows, input).Success? ==>
      Modes.Mode(Outcomes(Matching(rows, input))) == Some(Predict(rows, input).value.outcome) &&
      Modes.Mode(Violations(Matching(rows, input))) == Some(Predict(rows, input).value.violation)
  {
    var m := Matching(rows, input);
    var r := Predict(rows, input);
    if |m| > 0 && r.Success? {
      Modes.ModeIsUnique(Outcomes(m), r.value.outcome);
      Modes.ModeIsUnique(Violations(m), r.value.violation);
    }
  }

  /** Three "Arrest" against one "Warning": the mode is "Arrest". */
  lemma ArrestOutvotesWarning(col: seq<Option<string>>)
    requires |col| == 4
    requires col[0] == Some("Arrest") && col[1] == Some("Arrest")
    requires col[2] == Some("Warning") && col[3] == Some("Arrest")
    ensures Modes.Mode(col) == Some("Arrest")
  {
    assert col == [col[0], col[1], col[2], col[3]];
    assert Modes.Freq(col, "Arrest") == 3;
    assert Modes.Freq(col, "Warning") == 1;
    Text.LessEqReflexive("Arrest");
    assert Modes.IsLeastMode(col, "Arrest");
    Modes.ModeIsUnique(col, "Arrest");
  }

  /** A stop of a 27-year-old male driver, no search, not drug-related,
      lasting "0-15 min", for `DominantOutcomePredicted`. */
  function Stop(outcome: string): (row: StopRecord)
  {
    StopRecord(None, None, None, Some("male"), Some(27), None, Some(0), Some(0),
               Some("0-15 min"), Some(outcome), Some("Speeding"), None)
  }
}
