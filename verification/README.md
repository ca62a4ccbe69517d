# Police street-crime enrichment and report, modelled in Dafny

The script fetches one month of street-crime records for a fixed polygon. It asks a neighbourhood service which police force
covers each record's coordinates. It collects three lists: OUTCOME, CRIME and FORCE. It
turns them into a data frame and adds a FLG column that marks missing
outcomes. Then it prints the forces of the flagged rows and plots the number
of resolved crimes per category.

This project models the pure part of that pipeline over immutable values:

- `PyJson` (`python_json.dfy`) holds decoded JSON as Python sees it: None,
  bool, number, str, list and dict. It also models the Python operations the
  loop applies to such values. Subscripting raises KeyError on a dict that
  lacks the key and TypeError on anything else. Truth-testing follows
  Python's rules. `in` with a string works on dict keys, substrings and list
  elements, and raises TypeError on numbers, booleans and None. The f-string
  conversion is modelled too.
- `Enrichment` (`enrichment.dfy`) models `populate_dict`. The loop body
  (`Enrich`) reads the keys in the source's order. It raises exactly as
  Python would. The `except KeyError` clause turns every KeyError into
  KeyError('A key is missing'). `PopulateDict` returns either the three
  lists in record order or the error of the first record that fails. It
  never returns a partial dictionary.
- `Report` (`report.dfy`) models the frame with its FLG column and
  `display_results`: the de-duplicated forces of flagged rows, the filter
  on non-null OUTCOME, and the group-by count over CRIME. It also composes
  the whole run as `Main`, plus `MainAsWritten`, which keeps the source's
  crash on an empty crime list (see Findings).
- `Sequences` (`sequences.dfy`) holds the generic operations: mask
  selection, order-preserving de-duplication and tallying. Each is
  characterised independently of how it is computed.
- `Scenarios` (`scenarios.dfy`) holds two concrete runs over a pair of
  records.

Two parameters stand for code outside the model:

- `lookup: string -> Option<string>` is the neighbourhood request. It takes
  the `q` string and returns the response's force; `None` means the response
  has no "force" key.
- `show: Json -> string` is Python's `str()` for numbers, lists and dicts,
  whose float and repr formatting is not modelled. Strings, None and booleans
  are converted concretely.

The code raises Python exceptions. A missing key becomes KeyError('A key is
missing'). A record or location that is not a dict raises TypeError, which
the except clause does not catch. So does a truthy outcome status that is a
number or True, and a string or list status that contains "category". A
non-empty string or list status without "category" gives OUTCOME None.
The model follows the code.

## Model

| member | source | states |
|---|---|---|
| Enrichment.Enrich | interview_code.py:35-47 | The loop body for one record. It has no contract of its own; Enrichment.EnrichEntry, Enrichment.EnrichFailsIffKeyMissing and Enrichment.EnrichTypeErrors characterise it. |
| Enrichment.PopulateDict | interview_code.py:32-48 | The call succeeds exactly when every record's loop body succeeds. Then OUTCOME, CRIME and FORCE each have one entry per record, and entry i is record i's. Otherwise the error is that of the first failing record, with KeyError re-raised as 'A key is missing', and no lists are returned. |
| Enrichment.EnrichFailsIffKeyMissing | interview_code.py:35-47 | A record with the documented shape (dict record, dict location, null-or-dict outcome status) makes the loop body raise exactly when location, latitude, longitude, outcome_status, category or the response's force is missing. That error is always a KeyError. A status without "category" is not an error. |
| Enrichment.EnrichTypeErrors | interview_code.py:35-47 | A record that is not a dict, or whose location is not a dict, raises TypeError. The KeyError handler leaves it unchanged. |
| Enrichment.EnrichEntry | interview_code.py:36-45 | A successful loop body implies the record had every key read. It appends the record's category verbatim. The outcome is the status's category when the status is a dict holding one, and None otherwise. The force is the one the lookup returned for "latitude,longitude". |
| Enrichment.PopulateFailsIffSomeKeyMissing | interview_code.py:34-47 | Over well-shaped records the whole call fails exactly when some record misses a key. The error is then KeyError('A key is missing'). |
| Enrichment.PopulateColumns | interview_code.py:33-45 | After a successful call, CRIME[i] is record i's category and OUTCOME[i] its outcome-status category (or None). The lookup of record i's coordinates returned FORCE[i], so input order is kept. |
| Report.Frame | interview_code.py:72-73 | The frame has one row per list entry with the same OUTCOME, CRIME and FORCE. FLG is 1 exactly when OUTCOME is null and 0 exactly when it is not. |
| Report.FrameAsWrittenFailsIffNoRecords | interview_code.py:71-73 | Given the dictionary `populate_dict` built from a crime list, the source's `df.OUTCOME` raises exactly when the list had no records. The error is AttributeError on OUTCOME. Otherwise the frame has one row per record. |
| Report.Main | interview_code.py:68-74 | With string CRIME values, the run succeeds exactly when the dictionary is built, and otherwise fails with its error. On success the printed forces and the group keys have no duplicates. An empty crime list gives no forces and an empty table. |
| Report.DisplayResults | interview_code.py:54-62 | `display_results` without printing and plotting. It has no contract of its own; Report.SilentForcesSpec and Report.CrimeCountsSpec characterise it. |
| Report.MainAsWritten | interview_code.py:68-74 | `main` as the source writes it. It has no contract of its own; Report.EmptyCrimeListCrashesAsWritten and Report.MainCorrectsOnlyTheEmptyList characterise it. |
| Report.SilentForcesSpec | interview_code.py:55-56 | The printed forces have no duplicates. A force is printed exactly when some row with FLG = 1 has it. Forces appear in the order of their first flagged row. |
| Report.MainSilentForces | interview_code.py:55-56 | In a successful run, a force is printed exactly when some record without an outcome category has it. |
| Sequences.FilterSelectsAcceptedPositions | interview_code.py:59 | A mask selection yields the original rows at strictly increasing positions. A position is selected exactly when its row passes the mask, so the rows with non-null OUTCOME remain in their original order. |
| Sequences.FilterMembers | interview_code.py:55 | A row appears in a mask selection exactly when it is in the frame and passes the mask. |
| Sequences.FilterIdempotent | interview_code.py:59 | Applying the same mask to an already selected frame changes nothing. |
| Sequences.Unique | interview_code.py:56 | De-duplication returns a sequence without repetitions that holds exactly the values of its input. |
| Sequences.UniqueFirstOccurrenceOrder | interview_code.py:56 | De-duplicated values come in the order of their first occurrence in the input. |
| Sequences.Tally | interview_code.py:62 | The group-by count's keys are the input's distinct values. Each count is the number of occurrences of its key. The counts sum to the input's length. |
| Sequences.TallyEntries | interview_code.py:62 | No key has two entries. Every input value has an entry. Every count is at least one. |
| Report.CrimeCountsSpec | interview_code.py:62 | The count table has one entry per distinct non-null CRIME. Each count equals the number of rows with that CRIME and is at least one. The counts add up to the number of rows with a non-null CRIME. |
| Report.CrimeKeys | interview_code.py:62 | A value is a key of the count table exactly when it is non-null and some row has it as CRIME. |
| Report.CrimeCountValues | interview_code.py:62 | Every count equals the number of rows of its category and is positive. |
| Report.CountsSumToRowsWithOutcome | interview_code.py:59-62 | When every CRIME is non-null, the counts in the report add up to the number of rows whose OUTCOME is not null. |
| Report.AggregationIdempotent | interview_code.py:59-62 | Aggregating the rows the OUTCOME filter kept gives the same count table as aggregating all rows. |
| Report.EmptyCrimeListCrashesAsWritten | interview_code.py:71-73 | An empty crime list ends the run as written with AttributeError on OUTCOME. |
| Report.MainCorrectsOnlyTheEmptyList | interview_code.py:68-74 | The corrected run reports no forces and an empty table for an empty crime list. On every non-empty list it agrees with the run as written. |
| Scenarios.EnrichResolved | interview_code.py:34-45 | A burglary with outcome "no-further-action" at 52.6,0.4 becomes (no-further-action, burglary, Alpha). |
| Scenarios.EnrichPending | interview_code.py:34-45 | A theft with a null outcome status at 52.7,0.3 becomes (None, theft, Beta). |
| Scenarios.TwoRecordColumns | interview_code.py:32-48 | Those two records give the lists [no-further-action, None], [burglary, theft] and [Alpha, Beta]. |
| Scenarios.TwoRowSummary | interview_code.py:54-62 | Over those rows, only Beta is printed and the table is burglary with count 1. |
| Scenarios.TwoRecordRun | interview_code.py:68-74 | The whole run over the two records prints Beta and counts one burglary. |
| Scenarios.MissingForceAbortsRun | interview_code.py:45-47 | When the second record's response has no force, the run fails with KeyError('A key is missing') and produces no summary. |

## Left out

- Fetching (`getdata`, aiohttp, asyncio; interview_code.py:23-27, 68-70, 77-78) is left out because it is network I/O. Connection failures and undecodable responses of either request are therefore not modelled. The crime response is taken to be a list of records; a non-list response is not modelled.
- The neighbourhood response is reduced to `Option<string>`. A response that is not a dict (a TypeError) and a "force" value that is not a string are not modelled.
- The global configuration (interview_code.py:13-18) is left out. It holds the wall-clock date window, URLs and polygon, none of which reach the modelled logic.
- Printing and plotting (interview_code.py:57, 63-64) are left out because they are display side effects. That includes the plotting library raising on an empty count table, which happens when no row has an outcome.
- Python's `str()` of numbers, lists and dicts is the `show` parameter, because float formatting is out of scope.
- Sequences.Tally: lists the group keys in first-appearance order. pandas sorts them, which only decides the order of the bars. The entries and counts are the same.
- Report.Main: assumes every CRIME value is a string, as the police API sends. On a list or dict CRIME, pandas' group-by raises TypeError (unhashable type), but the model counts it. pandas also puts `True` and `1` in one group, while the model keeps them apart. Numbers are one `Num(real)` kind, so `show` cannot tell Python's `str(52)` from `str(52.0)` in the neighbourhood query.
- Report.Frame: treats only None as null. pandas also counts a float NaN as null, and the JSON decoder accepts NaN. Numbers are modelled as reals, which have no NaN.

## Findings

| source | as written | input that shows it | evidently intended | confidence | as-written member | corrected member |
|---|---|---|---|---|---|---|
| interview_code.py:71-73 | With no crime records nothing is appended, so the dictionary has no keys. The frame built from it has no OUTCOME column, and reading that column raises AttributeError. | A month with no crimes in the polygon: an empty crime list. | Print no forces and report an empty count table. | not executed; medium | Report.EmptyCrimeListCrashesAsWritten | Report.Main |
