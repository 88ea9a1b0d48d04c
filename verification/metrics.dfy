/** The four "Key Metrics" tiles: total stops, arrests, warnings and
    drug-related stops over the loaded table. */
module Metrics {
  import opened Wrappers
  import opened Records
  import Seqs
  import Text

  datatype Counts = Counts(totalStops: nat, arrests: nat, warnings: nat, drugRelated: nat)

  /** `stop_outcome.str.contains(word, case=False, na=False)` for one row. */
  predicate OutcomeMentions(row: StopRecord, word: string)
  {
    row.stopOutcome.Some? && Text.ContainsFolded(row.stopOutcome.value, word)
  }

  predicate IsArrest(row: StopRecord) { OutcomeMentions(row, "arrest") }

  predicate IsNotArrest(row: StopRecord) { !IsArrest(row) }

  predicate IsWarning(row: StopRecord) { OutcomeMentions(row, "warning") }

  /** `drugs_related_stop == 1`: exact equality, a null never equal. */
  predicate IsDrugRelated(row: StopRecord) { row.drugsRelatedStop == Some(1) }

  /** The number of rows a boolean mask selects: `data[mask].shape[0]`. */
  function Selected(rows: seq<StopRecord>, mask: StopRecord -> bool): (n: nat)
    ensures n == |Seqs.IndexesWhere(rows, mask)|
    ensures n <= |rows|
  {
    Seqs.FilterCountsIndexes(rows, mask);
    |Seqs.Filter(rows, mask)|
  }

  /** `c` holds the four tiles of `rows`: the row count, and the number of
      positions whose row is an arrest, a warning, a drug-related stop. */
  ghost predicate CountsOf(rows: seq<StopRecord>, c: Counts)
  {
    && c.totalStops == |rows|
    && c.arrests == |Seqs.IndexesWhere(rows, IsArrest)|
    && c.warnings == |Seqs.IndexesWhere(rows, IsWarning)|
    && c.drugRelated == |Seqs.IndexesWhere(rows, IsDrugRelated)|
  }

  /** The four tiles over a frame that has its columns. */
  function GuardedMetrics(rows: seq<StopRecord>): (c: Counts)
    ensures CountsOf(rows, c)
    ensures c.arrests <= c.totalStops && c.warnings <= c.totalStops && c.drugRelated <= c.totalStops
  {
    Counts(|rows|, Selected(rows, IsArrest), Selected(rows, IsWarning), Selected(rows, IsDrugRelated))
  }

  /** The metrics section as written. An empty fetch yields a frame without
      columns, so `data['stop_outcome']` raises before the arrests tile. */
  function KeyMetrics(rows: seq<StopRecord>): (r: Result<Counts, Error>)
    ensures r.Failure? <==> |rows| == 0
    ensures r.Failure? ==> r.error == MissingColumn("stop_outcome")
    ensures r.Success? ==> CountsOf(rows, r.value)
    ensures r.Success? ==>
      r.value.arrests <= r.value.totalStops && r.value.warnings <= r.value.totalStops &&
      r.value.drugRelated <= r.value.totalStops
  {
    if |rows| == 0 then Failure(MissingColumn("stop_outcome")) else Success(GuardedMetrics(rows))
  }

  /** As written, loading no rows makes the metrics section raise. */
  lemma EmptyTableRaises()
    ensures KeyMetrics([]) == Failure(MissingColumn("stop_outcome"))
  {
  }

  /** With the empty-frame guard, no rows give four zero tiles. */
  lemma EmptyTableHasZeroMetrics(rows: seq<StopRecord>)
    requires |rows| == 0
    ensures GuardedMetrics(rows) == Counts(0, 0, 0, 0)
  {
    assert Seqs.IndexesWhere(rows, IsArrest) == {};
    assert Seqs.IndexesWhere(rows, IsWarning) == {};
    assert Seqs.IndexesWhere(rows, IsDrugRelated) == {};
  }

  /** Every row is either counted as an arrest or not: the arrests and the
      remaining rows make up the total. */
  lemma ArrestsPartitionRows(rows: seq<StopRecord>)
    ensures GuardedMetrics(rows).arrests + |Seqs.IndexesWhere(rows, IsNotArrest)| == |rows|
  {
    Seqs.IndexesPartition(rows, IsArrest, IsNotArrest);
  }

  /** The two outcome tiles may overlap: an outcome mentioning both words is
      counted as an arrest and as a warning. */
  lemma ArrestAndWarningOverlap(rows: seq<StopRecord>)
    requires |rows| == 1 && rows[0].stopOutcome == Some("Warning, then ARREST")
    ensures KeyMetrics(rows).value.arrests == 1
    ensures KeyMetrics(rows).value.warnings == 1
  {
    MentionsBoth(rows[0].stopOutcome.value);
    OnlyRow(rows, IsArrest);
    OnlyRow(rows, IsWarning);
  }

  lemma MentionsBoth(text: string)
    requires text == "Warning, then ARREST"
    ensures Text.ContainsFolded(text, "warning") && Text.ContainsFolded(text, "arrest")
  {
    assert Text.OccursAt(text, "warning", 0);
    assert Text.OccursAt(text, "arrest", 14);
  }

  lemma OnlyRow(rows: seq<StopRecord>, mask: StopRecord -> bool)
    requires |rows| == 1 && mask(rows[0])
    ensures Seqs.IndexesWhere(rows, mask) == {0}
  {
    forall i: nat ensures i in Seqs.IndexesWhere(rows, mask) <==> i == 0 {
    }
  }
}
