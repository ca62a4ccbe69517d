/** `populate_dict`: every crime record becomes one entry of each of the
    OUTCOME, CRIME and FORCE lists, the force coming from a neighbourhood
    lookup keyed by the record's "latitude,longitude". The lookup is a
    parameter (`None` stands for a response without a "force" key). */
module Enrichment {
  import opened PyJson

  /** The message every KeyError is re-raised with. */
  const MissingKeyMessage := "A key is missing"

  /** What one record contributes to the three lists. */
  datatype Entry = Entry(outcome: Json, crime: Json, force: string)

  /** The dictionary of lists, one list per column. */
  datatype Columns = Columns(outcome: seq<Json>, crime: seq<Json>, force: seq<string>)

  /** The `q` parameter of the neighbourhood query. */
  function Query(latitude: Json, longitude: Json, show: Json -> string): string {
    Text(latitude, show) + "," + Text(longitude, show)
  }

  /** The outcome category: the outcome status's "category" entry when the
      status is truthy and contains "category", None when it is not. */
  function OutcomeOf(record: Json): Result<Json> {
    var status :- Subscript(record, "outcome_status");
    if !Truthy(status) then Ok(Null)
    else
      var present :- Contains(status, "category");
      if present then Subscript(status, "category") else Ok(Null)
  }

  /** The "force" entry of the neighbourhood response. */
  function ForceOf(response: Option<string>): Result<string> {
    match response
    case Some(force) => Ok(force)
    case None => Err(KeyError("force"))
  }

  /** The body of the loop for one record, in the order the source reads
      the keys: location, latitude, longitude, the lookup, outcome_status,
      category and last the response's force. */
  function Enrich(record: Json, lookup: string -> Option<string>, show: Json -> string): Result<Entry> {
    var location :- Subscript(record, "location");
    var latitude :- Subscript(location, "latitude");
    var longitude :- Subscript(location, "longitude");
    var response := lookup(Query(latitude, longitude, show));
    var outcome :- OutcomeOf(record);
    var crime :- Subscript(record, "category");
    var force :- ForceOf(response);
    Ok(Entry(outcome, crime, force))
  }

  /** The `except KeyError` clause: a KeyError leaves the loop with the
      fixed message, any other exception passes through unchanged. */
  function Reraise(e: PyError): PyError {
    if e.KeyError? then KeyError(MissingKeyMessage) else e
  }

  /** Row `i` of the accumulated lists. */
  function EntryAt(c: Columns, i: nat): Entry
    requires i < |c.outcome| && i < |c.crime| && i < |c.force|
  {
    Entry(c.outcome[i], c.crime[i], c.force[i])
  }

  /** Record `i` is the first whose enrichment raises. */
  predicate FirstFailure(results: seq<Json>, i: int, lookup: string -> Option<string>, show: Json -> string) {
    && 0 <= i < |results|
    && Enrich(results[i], lookup, show).Err?
    && forall j :: 0 <= j < i ==> Enrich(results[j], lookup, show).Ok?
  }

  /** `populate_dict` over a crime list: either the three lists, one entry per record
      in record order, or the exception of the first record that raises;
      no partial lists are returned. */
  function PopulateDict(results: seq<Json>, lookup: string -> Option<string>, show: Json -> string): (r: Result<Columns>)
    ensures r.Ok? <==> forall i :: 0 <= i < |results| ==> Enrich(results[i], lookup, show).Ok?
    ensures r.Ok? ==> |r.value.outcome| == |results| && |r.value.crime| == |results| && |r.value.force| == |results|
    ensures r.Ok? ==> forall i :: 0 <= i < |results| ==> EntryAt(r.value, i) == Enrich(results[i], lookup, show).value
    ensures r.Err? ==> exists i :: FirstFailure(results, i, lookup, show) && r.error == Reraise(Enrich(results[i], lookup, show).error)
  {
    if |results| == 0 then Ok(Columns([], [], []))
    else
      match Enrich(results[0], lookup, show)
      case Err(e) =>
        assert FirstFailure(results, 0, lookup, show);
        Err(Reraise(e))
      case Ok(entry) =>
        var tail := results[1..];
        assert forall i :: 0 <= i < |tail| ==> tail[i] == results[i + 1];
        match PopulateDict(tail, lookup, show)
        case Err(e) =>
          var j :| FirstFailure(tail, j, lookup, show) && e == Reraise(Enrich(tail[j], lookup, show).error);
          assert FirstFailure(results, j + 1, lookup, show) by {
            forall k | 0 <= k < j + 1 ensures Enrich(results[k], lookup, show).Ok? {
              if k > 0 { assert results[k] == tail[k - 1]; }
            }
          }
          Err(e)
        case Ok(rest) =>
          var c := Columns([entry.outcome] + rest.outcome, [entry.crime] + rest.crime, [entry.force] + rest.force);
          assert forall i :: 1 <= i < |results| ==> EntryAt(c, i) == EntryAt(rest, i - 1);
          Ok(c)
  }

  /** The keys the police API is documented to send have the right kinds:
      the record is a dict, its location (when present) is a dict and its
      outcome_status (when present) is null or a dict. */
  predicate Shaped(record: Json) {
    && record.Obj?
    && ("location" in record.fields ==> record.fields["location"].Obj?)
    && ("outcome_status" in record.fields ==>
          record.fields["outcome_status"].Null? || record.fields["outcome_status"].Obj?)
  }

  /** Some key the loop body reads is absent: location, latitude,
      longitude, outcome_status, category, or force in the lookup's
      response. A category missing from the outcome status is not one. */
  predicate MissesKey(record: Json, lookup: string -> Option<string>, show: Json -> string)
    requires Shaped(record)
  {
    var f := record.fields;
    || "location" !in f
    || "latitude" !in f["location"].fields
    || "longitude" !in f["location"].fields
    || "outcome_status" !in f
    || "category" !in f
    || lookup(Query(f["location"].fields["latitude"], f["location"].fields["longitude"], show)).None?
  }

  /** For a well-shaped record the loop body raises exactly when a key is
      missing, and then it is a KeyError. */
  lemma EnrichFailsIffKeyMissing(record: Json, lookup: string -> Option<string>, show: Json -> string)
    requires Shaped(record)
    ensures Enrich(record, lookup, show).Err? <==> MissesKey(record, lookup, show)
    ensures Enrich(record, lookup, show).Err? ==> Enrich(record, lookup, show).error.KeyError?
  {
  }

  /** The record holds every key the loop body reads, with dicts where it
      subscripts again. */
  predicate Readable(record: Json) {
    && record.Obj?
    && "category" in record.fields
    && "outcome_status" in record.fields
    && "location" in record.fields
    && record.fields["location"].Obj?
    && "latitude" in record.fields["location"].fields
    && "longitude" in record.fields["location"].fields
  }

  /** The query string for a readable record's coordinates. */
  function Coordinates(record: Json, show: Json -> string): string
    requires Readable(record)
  {
    var location := record.fields["location"].fields;
    Query(location["latitude"], location["longitude"], show)
  }

  /** The category of an outcome status that is a dict holding one, None
      for every other status. */
  function StatusCategory(status: Json): Json {
    if status.Obj? && "category" in status.fields then status.fields["category"] else Null
  }

  /** What a successful loop body appends, for any record: the category
      verbatim, the outcome status's category when the status is a dict
      holding one (None otherwise), and the force the lookup returned for
      "<latitude>,<longitude>". */
  lemma EnrichEntry(record: Json, lookup: string -> Option<string>, show: Json -> string)
    requires Enrich(record, lookup, show).Ok?
    ensures Readable(record)
    ensures Enrich(record, lookup, show).value.crime == record.fields["category"]
    ensures Enrich(record, lookup, show).value.outcome == StatusCategory(record.fields["outcome_status"])
    ensures lookup(Coordinates(record, show)) == Some(Enrich(record, lookup, show).value.force)
  {
  }

  /** Over a batch of well-shaped records, `populate_dict` fails exactly
      when some record misses a key, and then always with
      KeyError('A key is missing'). */
  lemma PopulateFailsIffSomeKeyMissing(results: seq<Json>, lookup: string -> Option<string>, show: Json -> string)
    requires forall i :: 0 <= i < |results| ==> Shaped(results[i])
    ensures PopulateDict(results, lookup, show).Err? <==>
              exists i :: 0 <= i < |results| && MissesKey(results[i], lookup, show)
    ensures PopulateDict(results, lookup, show).Err? ==>
              PopulateDict(results, lookup, show).error == KeyError(MissingKeyMessage)
  {
    forall i | 0 <= i < |results| {
      EnrichFailsIffKeyMissing(results[i], lookup, show);
    }
  }

  /** A record that is not a dict, or whose location is not a dict, stops
      the run with TypeError: the clause that catches KeyError lets it pass. */
  lemma EnrichTypeErrors(record: Json, lookup: string -> Option<string>, show: Json -> string)
    requires !record.Obj? || ("location" in record.fields && !record.fields["location"].Obj?)
    ensures Enrich(record, lookup, show) == Err(TypeError)
    ensures Reraise(Enrich(record, lookup, show).error) == TypeError
  {
  }

  /** Column by column, a successful `populate_dict` holds record i's
      category at CRIME[i], its outcome category at OUTCOME[i] (None when
      the status is not a dict holding one) and the force the lookup gave
      for its coordinates at FORCE[i]: input order is kept. */
  lemma {:induction false} PopulateColumns(results: seq<Json>, lookup: string -> Option<string>, show: Json -> string)
    requires PopulateDict(results, lookup, show).Ok?
    ensures forall i :: 0 <= i < |results| ==> Enrich(results[i], lookup, show).Ok? && Readable(results[i])
    ensures forall i :: 0 <= i < |results| ==>
              PopulateDict(results, lookup, show).value.crime[i] == results[i].fields["category"]
    ensures forall i :: 0 <= i < |results| ==>
              PopulateDict(results, lookup, show).value.outcome[i] == StatusCategory(results[i].fields["outcome_status"])
    ensures forall i :: 0 <= i < |results| ==>
              lookup(Coordinates(results[i], show)) == Some(PopulateDict(results, lookup, show).value.force[i])
  {
    var c := PopulateDict(results, lookup, show).value;
    forall i | 0 <= i < |results|
      ensures Readable(results[i])
      ensures c.crime[i] == results[i].fields["category"]
      ensures c.outcome[i] == StatusCategory(results[i].fields["outcome_status"])
      ensures lookup(Coordinates(results[i], show)) == Some(c.force[i])
    {
      EnrichEntry(results[i], lookup, show);
      assert EntryAt(c, i) == Enrich(results[i], lookup, show).value;
    }
  }
}
