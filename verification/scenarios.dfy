/** Two concrete runs over a pair of crime records: one with an outcome
    reported by force Alpha, one without an outcome in force Beta. */
module Scenarios {
  import opened PyJson
  import opened Sequences
  import opened Enrichment
  import opened Report

  function Location(latitude: string, longitude: string): Json {
    Obj(map["latitude" := Str(latitude), "longitude" := Str(longitude)])
  }

  /** A burglary near 52.6,0.4 closed with no further action. */
  function Resolved(): Json {
    Obj(map[
      "category" := Str("burglary"),
      "location" := Location("52.6", "0.4"),
      "outcome_status" := Obj(map["category" := Str("no-further-action")])])
  }

  /** A theft near 52.7,0.3 with no outcome yet. */
  function Pending(): Json {
    Obj(map[
      "category" := Str("theft"),
      "location" := Location("52.7", "0.3"),
      "outcome_status" := Null])
  }

  /** The neighbourhood service: Alpha polices the first point, Beta the
      second, and any other query gets a response without a force. */
  function Neighbourhood(q: string): Option<string> {
    if q == "52.6,0.4" then Some("Alpha")
    else if q == "52.7,0.3" then Some("Beta")
    else None
  }

  /** The two records enrich, in order, to Alpha's resolved burglary and
      Beta's pending theft. */
  lemma TwoRecordColumns(show: Json -> string)
    ensures PopulateDict([Resolved(), Pending()], Neighbourhood, show)
              == Ok(Columns([Str("no-further-action"), Null], [Str("burglary"), Str("theft")], ["Alpha", "Beta"]))
  {
    var results := [Resolved(), Pending()];
    EnrichResolved(show);
    EnrichPending(show);
    var r := PopulateDict(results, Neighbourhood, show);
    assert r.Ok?;
    assert EntryAt(r.value, 0) == Entry(Str("no-further-action"), Str("burglary"), "Alpha");
    assert EntryAt(r.value, 1) == Entry(Null, Str("theft"), "Beta");
    var c := r.value;
    assert c.outcome == [Str("no-further-action"), Null];
    assert c.crime == [Str("burglary"), Str("theft")];
    assert c.force == ["Alpha", "Beta"];
  }

  lemma EnrichResolved(show: Json -> string)
    ensures Enrich(Resolved(), Neighbourhood, show) == Ok(Entry(Str("no-further-action"), Str("burglary"), "Alpha"))
  {
  }

  lemma EnrichPending(show: Json -> string)
    ensures Enrich(Pending(), Neighbourhood, show) == Ok(Entry(Null, Str("theft"), "Beta"))
  {
    assert Query(Str("52.7"), Str("0.3"), show) == "52.7,0.3";
  }

  /** Over those two rows Beta is the only silent force and the burglary
      is the one counted crime. */
  lemma TwoRowSummary()
    ensures DisplayResults(Frame(Columns([Str("no-further-action"), Null], [Str("burglary"), Str("theft")], ["Alpha", "Beta"])))
              == Summary(["Beta"], [(Str("burglary"), 1)])
  {
    var rows := Frame(Columns([Str("no-further-action"), Null], [Str("burglary"), Str("theft")], ["Alpha", "Beta"]));
    var r0 := Row(Str("no-further-action"), Str("burglary"), "Alpha", 0);
    var r1 := Row(Null, Str("theft"), "Beta", 1);
    assert rows == [r0, r1];
    assert rows[..1] == [r0] && [r0][..0] == [];
    assert Filter(rows, Flagged) == [r1];
    assert ["Beta"][..0] == [];
    assert SilentForces(rows) == ["Beta"];
    assert Filter([r0], HasOutcome) == [r0];
    assert WithOutcome(rows) == [r0];
    var crime := Str("burglary");
    assert [crime][..0] == [];
    assert Filter([crime], NotNull) == [crime];
    assert Tally([crime]) == [(crime, 1)];
  }

  /** Only Beta is reported as not providing outcomes, and the table has
      the one resolved crime with count one. */
  lemma TwoRecordRun(show: Json -> string)
    ensures Main([Resolved(), Pending()], Neighbourhood, show) == Ok(Summary(["Beta"], [(Str("burglary"), 1)]))
  {
    TwoRecordColumns(show);
    TwoRowSummary();
  }

  /** A service that knows only the first point. */
  function AlphaOnly(q: string): Option<string> {
    if q == "52.6,0.4" then Some("Alpha") else None
  }

  /** When the service returns no force for the second record, the whole
      run fails with the re-raised KeyError and no summary. */
  lemma MissingForceAbortsRun(show: Json -> string)
    ensures Main([Resolved(), Pending()], AlphaOnly, show) == Err(KeyError(MissingKeyMessage))
  {
    assert Query(Str("52.6"), Str("0.4"), show) == "52.6,0.4";
    assert Query(Str("52.7"), Str("0.3"), show) == "52.7,0.3";
    assert Enrich(Resolved(), AlphaOnly, show).Ok?;
    assert Enrich(Pending(), AlphaOnly, show) == Err(KeyError("force"));
  }
}
