# Train stop service: a Dafny model

This project models the core of a small Flask service for railway stops. The
service keeps two SQLite tables, stops and departures, filled from a public
transport data source:

- `PUT /stops` searches the data source for locations. It creates the ones it
  has not seen and refreshes the ones it has.
- `GET /stops/{id}` validates an `include` list and stores the stop's fresh
  departures (insert only). It then returns the stop with its previous and
  next stops by key and the first row of the departure table.
- `DELETE /stops/{id}` removes a stop.
- `PATCH /stops/{id}` assigns the request body's keys to the stop row and
  stamps it with the current time.
- `GET /operator-profiles/{id}` describes up to five distinct operators with a
  text generator.
- `GET /guide` tries every unordered pair of stored stops in index order
  against a journey planner. It stops at the first non-empty answer: 503 on
  a transport failure, 500 when that answer has no first journey or leg,
  otherwise the five-line `key: value` file.

Modules:

- `Seqs` and `Text` hold generic facts about sequences and Python string
  builtins: `strip`, `split`, `isdigit`, `str(n)` and code-point order.
- `Records` holds the entities and the self-link template.
- `Reconcile` holds the two reconciliation loops, as folds, with their
  lemmas.
- `Neighbours`, `Detail`, `Patch`, `Operators` and `Guide` hold the handlers'
  logic.
- `Store` holds the class `RecordStore`. Its fields are the two tables and
  their scan orders. Its methods run the loops in place and read the tables
  for the guide and the operator profiles.

The scan order is the order in which SQLite returns rows when a query has no
`ORDER BY`. The model takes it to be insertion order, as rowid order is:

- an insert appends to it;
- a delete removes from it;
- a patch that changes `stop_id` keeps the row's position.

## Model

| member | source | states |
|---|---|---|
| Seqs.Dedup | main.py:258 | keeps the first occurrence of each element: the result has no duplicates, is no longer than the input, holds the same elements and lists them in the order of their first occurrence (`DISTINCT`, and new rows added by a loop) |
| Seqs.FirstIndex | main.py:258 | the first position of an element: it holds the element and no earlier position does |
| Seqs.DedupSnoc | main.py:97-117 | one more element is added at the end of the de-duplicated sequence exactly when it did not occur before |
| Seqs.DedupHead | main.py:180 | the first element of a sequence is the first one kept |
| Seqs.ScanOrderAppend | main.py:116 | appending the keys new to a table, once each, keeps the scan order complete and duplicate-free over the grown key set |
| Seqs.ScanOrderCard | main.py:277-281 | a scan order has exactly as many ids as the table has rows, so the stop count and the id list agree |
| Seqs.WithoutDistinct | main.py:212-215 | removing the deleted id keeps the scan order duplicate-free |
| Seqs.ReplaceScanOrder | main.py:237-240 | renaming a row's key in place keeps the scan order complete and duplicate-free over the renamed key set |
| Text.StripPadded | main.py:145 | `strip()` removes exactly the Python whitespace around a core that starts and ends with a non-space |
| Text.JoinSplit | main.py:145 | joining the parts of `split(',')` with ',' gives back the string |
| Text.SplitJoin | main.py:145 | splitting a ','-join of comma-free parts gives back those parts |
| Text.NatToString | main.py:301 | `str(n)` is a non-empty run of decimal digits without a leading zero |
| Text.ParseNatToString | main.py:301 | reading a rendered count back gives the count |
| Records.SelfLink | main.py:105 | the link is `http://{host}:8888/stops/` followed by the id |
| Records.SelfLinkInjective | main.py:105 | two stops never share a self link |
| Reconcile.LastIndex | main.py:97-124 | the index of the last fetched stop with a given id: no later entry has that id |
| Reconcile.Entries | main.py:106-115 | one created entry per fetched stop, in order, with the id, the batch time and the self link |
| Reconcile.UpsertContents | main.py:97-124 | afterwards the stored ids are the old ones plus the fetched ones; a fetched id holds its last occurrence's name and coordinates and the batch time; a stop stored before keeps its link, and a new stop gets the template link; other stops are unchanged |
| Reconcile.UpsertKeepsTable | main.py:97-117 | stops stay keyed by their own id and the scan order stays complete and duplicate-free; the new scan order is the old one followed by the de-duplicated new ids |
| Reconcile.NewIds | main.py:97-99 | an id is listed exactly when a fetched stop has it and the table did not hold it |
| Reconcile.UpsertOrder | main.py:97-117 | the scan order after the upsert is the old one followed by the ids new to the table, each once, by first occurrence |
| Reconcile.UpsertKeys | main.py:97-117 | the stored ids afterwards are the old ones plus the fetched ones |
| Reconcile.UpsertKeyed | main.py:100-123 | every stop stays stored under its own id |
| Reconcile.FirstFetch | main.py:97-98 | the position of the first fetched stop with a given id: it has that id and no earlier one does |
| Reconcile.NewIdsInFetchOrder | main.py:97-117 | two new ids listed in some order first occur in the batch in that order |
| Reconcile.NewIdsDedupOrder | main.py:97-117 | the de-duplicated new ids are fetched, not stored before, and ordered by their first position in the batch |
| Reconcile.UpsertAppendsInFetchOrder | main.py:97-117 | old rows keep their scan positions; the appended ids are fetched ids new to the table, ordered by their first position in the batch |
| Reconcile.UpsertReport | main.py:96-128 | the reply is 201 exactly when no fetched id was stored before and none repeats in the batch; it then lists every fetched stop in batch order |
| Reconcile.UpsertAllStored | main.py:118-128 | a batch of stored ids creates nothing, keeps the scan order and reports an existing id as soon as the batch is not empty |
| Reconcile.UpsertIdempotent | main.py:96-128 | a second run of the same batch leaves the table and the order as they are and creates nothing |
| Reconcile.RefetchScenario | main.py:96-128 | "100"/"Plaza" into an empty store is created; fetched again as "Plaza2" it is refreshed, nothing is created and the new name is stored |
| Reconcile.InsertContents | main.py:164-174 | insert only: stored departures are never modified; the new keys are the trips fetched with a truthy platform; each new trip is stored from its first such occurrence with the batch time |
| Reconcile.InsertKeys | main.py:164-174 | the keys after the insert, and the stored rows unchanged |
| Reconcile.InsertFirst | main.py:165-173 | a trip new to the table is stored from its first platform-bearing occurrence |
| Reconcile.InsertKeepsTable | main.py:164-174 | departures stay keyed by trip id and the scan order stays complete and duplicate-free; the new scan order is the old one followed by the de-duplicated new trips |
| Reconcile.NewTrips | main.py:164-166 | a trip is listed exactly when a fetched departure with a platform has it and the table did not hold it |
| Reconcile.InsertOrder | main.py:164-174 | the scan order after the insert is the old one followed by the trips new to the table, each once, by first platform-bearing occurrence |
| Reconcile.InsertTripKeys | main.py:164-174 | the stored trips afterwards are the old ones plus the fetched trips that carry a platform |
| Reconcile.InsertKeyed | main.py:165-173 | every departure stays stored under its own trip id |
| Reconcile.FirstPlatformFetch | main.py:165-166 | the position of the first fetched departure of a trip that carries a platform |
| Reconcile.NewTripsInFetchOrder | main.py:164-174 | two new trips listed in some order first occur with a platform in that order |
| Reconcile.NewTripsDedupOrder | main.py:164-174 | the de-duplicated new trips carry a platform, were not stored before and are ordered by their first platform-bearing position |
| Reconcile.InsertAppendsInFetchOrder | main.py:164-174 | stored rows keep their scan positions; the appended trips are new to the table and ordered by their first platform-bearing position in the batch |
| Reconcile.FirstRowOfEmptyTable | main.py:164-180 | into an empty departure table, the first row afterwards (the row the detail view reads) is the first fetched departure with a platform, stored with the batch time |
| Reconcile.NoPlatformNoRow | main.py:164-178 | a batch in which no departure carries a platform changes nothing, so an empty table stays empty and the view answers 404 |
| Reconcile.NewTripsHead | main.py:164-180 | for an empty table, the first new trip is that of the first departure with a platform |
| Reconcile.NoPlatformNoTrips | main.py:164-166 | a batch without platforms yields no new trip |
| Reconcile.InsertAllStored | main.py:165-166 | a batch whose platform-bearing trips are all stored changes nothing |
| Reconcile.InsertIdempotent | main.py:164-174 | running the same batch again changes nothing |
| Reconcile.StoredTripIgnored | main.py:165-166 | changing the platform of a fetched departure whose trip is stored does not change the result |
| Neighbours.Prev | main.py:182 | the previous stop is the greatest stored key below the id, and there is none exactly when no key is below it |
| Neighbours.Next | main.py:183 | the next stop is the smallest stored key above the id, and there is none exactly when no key is above it |
| Neighbours.NextAsWritten | main.py:183 | the query as written returns a key above the id that no earlier key of the scan order is above, and none exactly when no key is above it |
| Neighbours.NextAsWrittenSorted | main.py:183 | when the scan runs in key order, the query as written returns the smallest greater key |
| Neighbours.NextAsWrittenNotSmallest | main.py:183 | in scan order C3, B2 the query as written answers C3 after A1, although B2 is the next key |
| Neighbours.NeighbourExamples | main.py:181-183 | for keys A1, B2, C3: B2 has previous A1 and next C3, and A1 has no previous; the only stop Z9 has neither |
| Neighbours.LinksOf | main.py:192-198 | `_links` has the stop's own link; `prev` is present exactly when a smaller key exists and is that greatest smaller stop's link; likewise `next` with the smallest greater key |
| Detail.ParseField | main.py:144-147 | exactly the names name, latitude and longitude are accepted |
| Detail.ParseFields | main.py:146-148 | the list is accepted exactly when every part names a column, and then the fields spell the parts |
| Detail.ParseInclude | main.py:140-148 | a missing or empty argument selects all three columns; otherwise the stripped argument is split on ',' and accepted exactly when every part names a column |
| Detail.IncludeRoundTrip | main.py:140-148 | a ','-join of column names with whitespace around the whole list is read back as that list |
| Detail.IncludeSpaceAfterComma | main.py:145-148 | "a, b" is rejected: the space after the comma stays in the second part |
| Detail.IncludeBlank | main.py:141-148 | a non-empty all-whitespace argument is rejected |
| Detail.Columns | main.py:189-190 | each selected column appears once, at its first position; a column appears with its value exactly when it was selected |
| Detail.DetailView | main.py:180-198 | the keys are stop_id, last_updated, the selected columns, next_departure and _links; `last_updated` and `next_departure` come from the first departure row, whichever stop it belongs to; the links are the neighbour links |
| Patch.SetAttr | main.py:238 | `setattr` sets the named column and no other; a key naming no column changes no column |
| Patch.ApplyBodyColumns | main.py:237-238 | after the body loop each column holds the value of the last body entry naming it, or its old value |
| Patch.PatchedColumns | main.py:236-239 | the patched row's `last_updated` is the current time whatever the body says; every other column holds the body's last value for it or its old value |
| Operators.TargetOperators | main.py:258 | at most five operators, none twice, each from the departure table; fewer than five only when the table has no other operator |
| Operators.OperatorInfo | main.py:254-272 | 400 exactly when the id is not seven ASCII digits of a stored stop; otherwise one entry per target operator, in order, with the generated profile |
| Operators.ProfilesBounded | main.py:258-272 | an accepted reply lists at most five distinct operators taken from stored departures, and fewer only when no operator is missing |
| Guide.Row | main.py:283-288 | the pairs the inner loop forms for index i: `(ids[i], ids[j])` for every j > i, in order |
| Guide.PairsBeforeCount | main.py:282-283 | the first i rows hold i(2n-i-1)/2 pairs |
| Guide.PairsCount | main.py:282-283 | n stops give n(n-1)/2 pairs |
| Guide.PairsBeforePrefix | main.py:282-283 | earlier outer iterations enumerate a prefix of later ones |
| Guide.PartialRowPrefix | main.py:282-288 | the pairs up to any point of the nested loops are a prefix of the whole enumeration |
| Guide.PairPosition | main.py:282-288 | the index pair i < j is tried, at its position in the enumeration |
| Guide.PairOrder | main.py:282-283 | pairs are tried in lexicographic order of their indices |
| Guide.PairsExample | main.py:282-288 | for S1, S2, S3 the pairs are (S1, S2), (S1, S3), (S2, S3) |
| Guide.ArtifactValues | main.py:297-309 | exactly five values, one per artifact key; what each holds is stated by Guide.ArtifactContents and Guide.ArtifactRoundTrip |
| Guide.ArtifactLines | main.py:312-314 | exactly five lines, `From`, `To`, `Result`, `Top result` and `Description_to_Destination` in that order, each `key: value` and a newline |
| Guide.IndexOf | main.py:314 | the first position of a character, and no earlier occurrence |
| Guide.ParseLineOfLine | main.py:314 | a written line whose key has no ':' reads back as its key and value |
| Guide.ArtifactRoundTrip | main.py:298-314 | reading the artifact back gives its five keys and values, and the `Result` value is the number of journeys |
| Guide.ArtifactContents | main.py:297-309 | the file's `From` and `To` are the first leg's origin and destination, `Top result` is the rendered dictionary of that leg with the text `Departure from platform {p} towards {d}`, and the description is the generator's answer to the overview prompt for the destination |
| Guide.GuideSearch | main.py:276-318 | over the stop ids in order: fewer than two ids gives 400 and no call; the calls made are a prefix of the pair enumeration, and every call but the last answered empty; 404 only after every pair answered empty; otherwise the reply comes from the last call's answer: 503 for a failure, 500 for no first journey or leg, the artifact otherwise |
| Guide.ExhaustedSearch | main.py:282-318 | when every pair answers empty, the reply is 404 after exactly n(n-1)/2 calls |
| Guide.FirstAnswerDecides | main.py:282-316 | when pair m is the first pair with an answer, exactly the first m+1 pairs are called and the reply is built from pair m's answer |
| Store.RecordStore.constructor | main.py:320-322 | both tables start empty |
| Store.RecordStore.PutStops | main.py:80-128 | 503 and nothing stored on a failed fetch; otherwise the stop table becomes the upsert of the batch; 201 with the created entries exactly when no fetched id was stored and none repeats, 200 otherwise; the departure table is untouched |
| Store.RecordStore.StoreDepartures | main.py:164-174 | the departure table becomes the insert-only fold of the batch; the stop table is untouched |
| Store.RecordStore.GetStopInfo | main.py:133-199 | checks run in order: unknown stop 400, invalid `include` 400, failed fetch 503, each leaving the tables unchanged; then the departures are inserted, an empty departure table gives 404, and otherwise the reply is the detail view built from the first departure row |
| Store.RecordStore.DeleteStop | main.py:201-220 | 404 and nothing changes for an unknown id; otherwise the stop leaves the table and the scan order, and departures stay |
| Store.RecordStore.PatchStop | main.py:229-250 | 400 and nothing changes for an unknown id; renaming onto another stored id is a conflict (500) and nothing changes; otherwise the patched row replaces the old one under its new id, at the same scan position, and the reply carries the new id, the current time and the stored link |
| Store.RecordStore.TourismGuide | main.py:276-318 | the search runs over the stored ids in scan order, with the outcome stated for GuideSearch; 400 exactly when fewer than two stops are stored |
| Store.RecordStore.OperatorProfiles | main.py:254-272 | the operator reply over the stored stops and the operator column of the whole departure table in scan order, with the outcome stated for OperatorInfo |
| Store.OperatorColumn | main.py:258 | the operator column lists exactly the operators of the stored departures, one per row in scan order |

## Left out

- HTTP routing, request parsing and documentation models (Flask, flask-restx): each handler is a method whose inputs and outputs are explicit, and HTTP status codes are given by `Code()` on the reply types.
- The network calls to the transport data source are parameters: `StopFetch`, `DepartureFetch` and a `route` function. A failed call is the failure variant of each.
- The nested JSON of the data source is flattened into `FetchedStop`, `FetchedDeparture` and `Leg`. Payloads with a missing key or the wrong shape are not modelled. This includes a departures reply without `departures` and a truthy journey answer without `journeys`; all of them raise in Python and give 500.
- Date handling is not modelled: a batch's time is the opaque string `ts`, and the current time of the patch is the parameter `now`. Parsing and reformatting the `Date` header is left out.
- The text generator is the parameter `describe`, and its failures are not modelled.
- The artifact file is modelled as its lines; opening, writing and sending the file are left out. The `Top result` value is the `str()` of a Python dictionary, which is the parameter `render`.
- The host name comes from a DNS lookup at start-up; it is the store's constant `host`.
- Transactions are not modelled. The upsert commits after every stop; database errors part-way through a batch are left out.
- Stop ids are stored as SQLite `TEXT` and compared by code point (`Text.Less`). Column length limits are not enforced by SQLite and are left out.
- `GuideSearch` and `OperatorInfo` read the rows in the order of their sequence parameters. `RecordStore.TourismGuide` passes `stopOrder`, and `RecordStore.OperatorProfiles` passes `OperatorColumn(departures, departureOrder)`. For the guide's id list SQLite may instead answer in key order, through the primary-key index; that order is not modelled.
- Patch body values are strings in the model. JSON numbers, `null`, nested values and a body that is not an object are left out.
- Patch.SetAttr: a key that names no column changes no column. Setting an internal attribute of the ORM object (such as `query` or `metadata`) may break the request; this is not modelled.
- Text.IsDigits: only ASCII digits. Python's `isdigit` also accepts other Unicode digits.
- Operators.OperatorInfo: only ASCII digits count as digits, so it accepts fewer stop ids than the source does (`isdigit` also accepts other Unicode digits).
- `direction` and `operator` of a departure may be JSON `null` at the source; here they are strings.
- Guide.Leg: `departurePlatform` and `direction` of a leg may be JSON `null`, which the `Platform` text renders as `None`; here they are strings, so a `null` is the string `None`.
- Message texts of the error replies are left out; only the variant and its status code are modelled.
- Concurrent requests are left out: each handler runs to completion on the store.

## Findings

| source | as written | input that shows it | evidently intended | confidence | as-written member | corrected member |
|---|---|---|---|---|---|---|
| main.py:183 | the next stop is `filter(stop_id > id).first()` with no `order_by`, so it is whichever greater key the query meets first | scan order C3, B2 and stop A1: C3 is returned although B2 is the next key | the smallest greater key, the counterpart of the descending `order_by` on the previous stop at main.py:182 | not executed; low: SQLite usually answers this range query through the primary-key index, which returns key order | Neighbours.NextAsWrittenNotSmallest | Neighbours.Next |
