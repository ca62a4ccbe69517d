/** The data frame built from the accumulated lists, its FLG column, and
    `display_results`: the forces whose crimes carry no outcome, the rows
    with an outcome, and the number of such rows per crime category. */
module Report {
  import opened PyJson
  import opened Sequences
  import opened Enrichment

  /** One row of the data frame once FLG is assigned. */
  datatype Row = Row(outcome: Json, crime: Json, force: string, flg: int)

  /** What `display_results` computes before it prints and plots. */
  datatype Summary = Summary(silentForces: seq<string>, crimeCounts: seq<(Json, nat)>)

  /** The FLG value of one row: 1 where OUTCOME is null, 0 elsewhere. */
  function Flag(outcome: Json): int {
    if outcome.Null? then 1 else 0
  }

  /** The data frame built from the dictionary, with the FLG column assigned, for a
      dictionary whose three lists have one entry per record. */
  function Frame(c: Columns): (rows: seq<Row>)
    requires |c.crime| == |c.outcome| && |c.force| == |c.outcome|
    ensures |rows| == |c.outcome|
    ensures forall i :: 0 <= i < |rows| ==>
              rows[i].outcome == c.outcome[i] && rows[i].crime == c.crime[i] && rows[i].force == c.force[i]
    ensures forall i :: 0 <= i < |rows| ==> (rows[i].flg == 1 <==> rows[i].outcome == Null)
    ensures forall i :: 0 <= i < |rows| ==> (rows[i].flg == 0 <==> rows[i].outcome != Null)
  {
    seq(|c.outcome|, i requires 0 <= i < |c.outcome| =>
      Row(c.outcome[i], c.crime[i], c.force[i], Flag(c.outcome[i])))
  }

  /** The frame as the source builds it: a dictionary into which nothing
      was appended has no OUTCOME key, so the frame has no OUTCOME column
      and reading the OUTCOME attribute raises AttributeError. */
  function FrameAsWritten(c: Columns): Result<seq<Row>>
    requires |c.crime| == |c.outcome| && |c.force| == |c.outcome|
  {
    if |c.outcome| == 0 then Err(AttributeError("OUTCOME")) else Ok(Frame(c))
  }

  /** The mask FLG equals 1. */
  predicate Flagged(r: Row) {
    r.flg == 1
  }

  /** The mask OUTCOME is not null. */
  predicate HasOutcome(r: Row) {
    r.outcome != Null
  }

  /** A group key the group-by keeps: null keys are dropped. */
  predicate NotNull(j: Json) {
    j != Null
  }

  function ForceOfRow(r: Row): string {
    r.force
  }

  function CrimeOfRow(r: Row): Json {
    r.crime
  }

  /** The FORCE column of the rows with FLG equal to 1. */
  function FlaggedForces(rows: seq<Row>): seq<string> {
    Map(Filter(rows, Flagged), ForceOfRow)
  }

  /** Those forces, each once, in order of first appearance. */
  function SilentForces(rows: seq<Row>): seq<string> {
    Unique(FlaggedForces(rows))
  }

  /** The rows whose OUTCOME is not null. */
  function WithOutcome(rows: seq<Row>): seq<Row> {
    Filter(rows, HasOutcome)
  }

  /** The number of rows per CRIME value; rows with a null CRIME form no group. */
  function CrimeCounts(rows: seq<Row>): seq<(Json, nat)> {
    Tally(Filter(Map(rows, CrimeOfRow), NotNull))
  }

  /** `display_results` without the printing and the chart. */
  function DisplayResults(rows: seq<Row>): Summary {
    Summary(SilentForces(rows), CrimeCounts(WithOutcome(rows)))
  }

  /** `main` once the crime list is fetched, with an empty crime list
      reported as nothing rather than a crash. */
  function Main(results: seq<Json>, lookup: string -> Option<string>, show: Json -> string): (r: Result<Summary>)
    ensures r.Ok? <==> PopulateDict(results, lookup, show).Ok?
    ensures r.Err? ==> r.error == PopulateDict(results, lookup, show).error
    ensures r.Ok? ==> Distinct(r.value.silentForces) && Distinct(Keys(r.value.crimeCounts))
    ensures results == [] ==> r == Ok(Summary([], []))
  {
    var d :- PopulateDict(results, lookup, show);
    var rows := Frame(d);
    TallyEntries(Filter(Map(WithOutcome(rows), CrimeOfRow), NotNull));
    Ok(DisplayResults(rows))
  }

  /** `main` as the source writes it. */
  function MainAsWritten(results: seq<Json>, lookup: string -> Option<string>, show: Json -> string): Result<Summary> {
    var d :- PopulateDict(results, lookup, show);
    var rows :- FrameAsWritten(d);
    Ok(DisplayResults(rows))
  }

  /** The printed forces: no force twice; a force is printed exactly when
      some row with FLG = 1 has it; and they are printed in the order of
      their first flagged row. */
  lemma SilentForcesSpec(rows: seq<Row>)
    ensures Distinct(SilentForces(rows))
    ensures forall f :: f in SilentForces(rows) <==>
              exists i :: 0 <= i < |rows| && rows[i].flg == 1 && rows[i].force == f
    ensures forall a, b :: 0 <= a < b < |SilentForces(rows)| ==>
              IndexOf(FlaggedForces(rows), SilentForces(rows)[a]) < IndexOf(FlaggedForces(rows), SilentForces(rows)[b])
  {
    var flagged := Filter(rows, Flagged);
    FilterMembers(rows, Flagged);
    UniqueFirstOccurrenceOrder(FlaggedForces(rows));
    forall f
      ensures f in SilentForces(rows) <==> exists i :: 0 <= i < |rows| && rows[i].flg == 1 && rows[i].force == f
    {
      if f in SilentForces(rows) {
        var k :| 0 <= k < |flagged| && flagged[k].force == f;
        assert flagged[k] in flagged;
        var i :| 0 <= i < |rows| && rows[i] == flagged[k];
      }
      if exists i :: 0 <= i < |rows| && rows[i].flg == 1 && rows[i].force == f {
        var i :| 0 <= i < |rows| && rows[i].flg == 1 && rows[i].force == f;
        assert rows[i] in flagged;
        var k :| 0 <= k < |flagged| && flagged[k] == rows[i];
        assert FlaggedForces(rows)[k] == f;
      }
    }
  }

  /** The group-by table of a set of rows: one entry per distinct non-null
      crime category among them, in order of first appearance, each with
      the number of rows of that category, at least one; the counts add
      up to the number of rows with a non-null category. */
  lemma CrimeCountsSpec(rows: seq<Row>)
    ensures Distinct(Keys(CrimeCounts(rows)))
    ensures forall k :: k in Keys(CrimeCounts(rows)) <==>
              k != Null && exists i :: 0 <= i < |rows| && rows[i].crime == k
    ensures forall e :: e in CrimeCounts(rows) ==> 1 <= e.1 == Count(Map(rows, CrimeOfRow), e.0)
    ensures Total(CrimeCounts(rows)) == |Filter(Map(rows, CrimeOfRow), NotNull)|
  {
    var crimes := Map(rows, CrimeOfRow);
    var kept := Filter(crimes, NotNull);
    TallyEntries(kept);
    CrimeKeys(rows);
    CrimeCountValues(rows);
  }

  /** The keys of the group-by table are the non-null crime categories. */
  lemma CrimeKeys(rows: seq<Row>)
    ensures forall k :: k in Keys(CrimeCounts(rows)) <==>
              k != Null && exists i :: 0 <= i < |rows| && rows[i].crime == k
  {
    var crimes := Map(rows, CrimeOfRow);
    var kept := Filter(crimes, NotNull);
    TallyEntries(kept);
    FilterMembers(crimes, NotNull);
    forall k
      ensures k in Keys(CrimeCounts(rows)) <==> k != Null && exists i :: 0 <= i < |rows| && rows[i].crime == k
    {
      if k != Null && exists i :: 0 <= i < |rows| && rows[i].crime == k {
        var i :| 0 <= i < |rows| && rows[i].crime == k;
        assert crimes[i] == k;
      }
    }
  }

  /** Each count of the group-by table is the number of rows of its
      category, and is positive. */
  lemma CrimeCountValues(rows: seq<Row>)
    ensures forall e :: e in CrimeCounts(rows) ==> 1 <= e.1 == Count(Map(rows, CrimeOfRow), e.0)
  {
    var crimes := Map(rows, CrimeOfRow);
    var kept := Filter(crimes, NotNull);
    var t := Tally(kept);
    TallyEntries(kept);
    forall e | e in t
      ensures 1 <= e.1 == Count(crimes, e.0)
    {
      var i :| 0 <= i < |t| && t[i] == e;
      assert Keys(t)[i] == e.0;
      assert e.0 in kept;
      FilterMembers(crimes, NotNull);
      FilterKeepsCount(crimes, NotNull, e.0);
    }
  }

  /** With every crime category a non-null value, the counts add up to the
      number of rows that have an outcome. */
  lemma CountsSumToRowsWithOutcome(rows: seq<Row>)
    requires forall i :: 0 <= i < |rows| ==> rows[i].crime != Null
    ensures Total(DisplayResults(rows).crimeCounts) == |WithOutcome(rows)|
  {
    var resolved := WithOutcome(rows);
    CrimeCountsSpec(resolved);
    FilterMembers(rows, HasOutcome);
    assert forall i :: 0 <= i < |resolved| ==> resolved[i] in rows;
    FilterAll(Map(resolved, CrimeOfRow), NotNull);
  }

  /** Running the aggregation again on the rows it kept gives the same
      counts: filtering on OUTCOME is idempotent. */
  lemma AggregationIdempotent(rows: seq<Row>)
    ensures DisplayResults(WithOutcome(rows)).crimeCounts == DisplayResults(rows).crimeCounts
  {
    FilterIdempotent(rows, HasOutcome);
  }

  /** Over the frame of a successful run, a row's FLG is 1 exactly when
      its record has no outcome category, and the printed forces are those
      of such records. */
  lemma {:induction false} MainSilentForces(results: seq<Json>, lookup: string -> Option<string>, show: Json -> string)
    requires PopulateDict(results, lookup, show).Ok?
    ensures forall f :: f in Main(results, lookup, show).value.silentForces <==>
              exists i :: 0 <= i < |results| && Enrich(results[i], lookup, show).value.outcome == Null
                                             && Enrich(results[i], lookup, show).value.force == f
  {
    var d := PopulateDict(results, lookup, show).value;
    var rows := Frame(d);
    SilentForcesSpec(rows);
    forall f
      ensures f in SilentForces(rows) <==>
                exists i :: 0 <= i < |results| && Enrich(results[i], lookup, show).value.outcome == Null
                                               && Enrich(results[i], lookup, show).value.force == f
    {
      if f in SilentForces(rows) {
        var i :| 0 <= i < |rows| && rows[i].flg == 1 && rows[i].force == f;
        assert EntryAt(d, i) == Enrich(results[i], lookup, show).value;
      }
      if exists i :: 0 <= i < |results| && Enrich(results[i], lookup, show).value.outcome == Null
                                        && Enrich(results[i], lookup, show).value.force == f {
        var i :| 0 <= i < |results| && Enrich(results[i], lookup, show).value.outcome == Null
                                    && Enrich(results[i], lookup, show).value.force == f;
        assert EntryAt(d, i) == Enrich(results[i], lookup, show).value;
        assert rows[i].flg == 1 && rows[i].force == f;
      }
    }
  }

  /** Over the dictionary `populate_dict` builds from a crime list, the
      source's frame fails exactly when the list has no records, always
      with AttributeError on OUTCOME; otherwise it has one row per record. */
  lemma FrameAsWrittenFailsIffNoRecords(results: seq<Json>, lookup: string -> Option<string>, show: Json -> string)
    requires PopulateDict(results, lookup, show).Ok?
    ensures FrameAsWritten(PopulateDict(results, lookup, show).value).Err? <==> results == []
    ensures FrameAsWritten(PopulateDict(results, lookup, show).value).Err? ==>
              FrameAsWritten(PopulateDict(results, lookup, show).value).error == AttributeError("OUTCOME")
    ensures FrameAsWritten(PopulateDict(results, lookup, show).value).Ok? ==>
              |FrameAsWritten(PopulateDict(results, lookup, show).value).value| == |results|
  {
  }

  /** An empty crime list stops the source's run with AttributeError. */
  lemma EmptyCrimeListCrashesAsWritten(lookup: string -> Option<string>, show: Json -> string)
    ensures MainAsWritten([], lookup, show) == Err(AttributeError("OUTCOME"))
  {
  }

  /** The corrected run reports no forces and an empty table for an empty
      crime list, and agrees with the source on every other input. */
  lemma MainCorrectsOnlyTheEmptyList(results: seq<Json>, lookup: string -> Option<string>, show: Json -> string)
    ensures results == [] ==> Main(results, lookup, show) == Ok(Summary([], []))
    ensures results != [] ==> Main(results, lookup, show) == MainAsWritten(results, lookup, show)
  {
    if results == [] {
      assert Filter(Map(WithOutcome([]), CrimeOfRow), NotNull) == [];
    }
  }
}
