# critter_api: device and event reconciliation, in Dafny

This project models the read side of the critter API (`critter_api.py`). Its Flask handlers
join the Particle cloud registry's device list with the DynamoDB `critter_devices` table.
They also read single device records and project the `critter_events` rows of a device.
Two unused helpers work on DynamoDB's low-level wire format: one sorts items by
`submitted_int`, one unwraps type-tagged attribute values.
The HTTP calls and table reads are inputs to the model, not performed by it:

- the registry reply is a `RegistryReply`: it fails, or it lists `RegistryDevice(id, name, connected)`;
- the `critter_devices` table is a `DeviceTable`: a map from `device_id` to its record, plus the ids whose `get_item` raises.
  `GetItem` is the lookup both handlers make. It raises for an id in `unavailable`. Otherwise it finds the stored record, or answers without `Item` when there is none;
- an events query is a `QueryReply`: it fails, or it answers with an `Items` entry that may be missing.

Every handler answers with an `Outcome`: `Ok(body)`, `NotFound` (404) or `ServerError` (500).
Record fields are `Value`s. Python's `float(...)` is the tag `Float(source)`: the model records
which value was converted, not the floating-point number.

Files:

- `values.dfy` (module `Values`): values, records, outcomes, and voltage normalisation.
- `aggregator.dfy` (module `Aggregator`): the `devices` and `device` handlers, the declarative listing `DeviceListing`, and lemmas about it.
- `events.dfy` (module `EventQuery`): the `device_events` handler.
- `scan.dfy` (module `ScanHelpers`): `sort_responses`, `convert_scan_response` and `convert_scan_responses`.
- `sorting.dfy`, `seqs.dfy`, `strings.dfy`: supporting modules. They hold the stable descending sort, order-preserving filtering and subsequences, and Python's string prefix test and string order.

The loops in `devices`, `device_events` and the two conversion helpers are `while`/`for` loops.
`ListDevices` is proved equal to `DeviceListing`, a function that describes the whole answer
at once. The other methods state their results outright. `sort_responses` is a single
`sorted(...)` expression, so it is modelled as a function.

## Model

| member | source | states |
|---|---|---|
| `Values.NormalizeVoltage` | critter_api.py:119-120 | the record keeps exactly its keys; `last_reported_voltage`, when present, becomes `float` of its old value; every other field is unchanged |
| `Aggregator.SurvivorsMembers` | critter_api.py:102-116 | every kept registry device is in the registry list, has a name starting with `critter`, and has a record; every such registry device is kept |
| `Aggregator.SurvivorsKeepRegistryOrder` | critter_api.py:100-123 | the kept devices are a subsequence of the owned registry devices, so registry order is kept |
| `Aggregator.Unified` | critter_api.py:118-122 | a listed record has the record's keys plus `online`; `online` is the registry's `connected` flag; the voltage is normalised; every other field is unchanged |
| `Aggregator.ListDevices` | critter_api.py:99-127 | the loop with `continue` and `append` returns exactly `DeviceListing`: a 500 on a registry failure or when some owned device's lookup raises, and otherwise the views of the kept devices in registry order |
| `Aggregator.ViewsStep` | critter_api.py:102-123 | one more registry device extends the answer by its view exactly when it is owned and provisioned, and leaves it unchanged otherwise |
| `Aggregator.ListingOutput` | critter_api.py:100-123 | with no store failure the answer is a list; it has one entry per kept device and no more entries than the registry list; entry j comes from the j-th kept device, which is an owned registry device with a record; the entry is built from that record, and its `online` is that device's `connected` |
| `Aggregator.ListingErrors` | critter_api.py:99-127 | the listing never answers 404; it answers 500 exactly when the registry fails or an owned device's lookup raises |
| `Aggregator.OwnershipFilterIrrelevant` | critter_api.py:104-106 | dropping the devices without the `critter` prefix from the registry list changes neither the answer nor whether it fails |
| `Aggregator.FeederExample` | critter_api.py:99-125 | a registry device `critter-feeder` whose record stores voltage `3.7` is returned with its record fields, `float(3.7)` as voltage and `online` true |
| `Aggregator.GetDevice` | critter_api.py:132-148 | 500 exactly when the lookup raises; 404 exactly when there is no record; otherwise the record with the voltage normalised and the same key set, so no `online` field is added |
| `EventQuery.DeviceEvents` | critter_api.py:152-169 | 404 exactly when `Items` is missing or empty; 500 exactly when the query raises or some row lacks `event_type` or `timestamp`; otherwise `device_id` is the queried id, and the events are as many as the rows, in row order, event i being `{event_type: row i's event_type, event_timestamp: row i's timestamp}` |
| `ScanHelpers.ConvertScanResponse` | critter_api.py:193-197 | the result has exactly the item's keys, and each key maps to the payload of its tagged value |
| `ScanHelpers.ConvertScanResponses` | critter_api.py:186-191 | one converted item per input item, same length and order, each unwrapped as above |
| `ScanHelpers.UnwrapLosesOnlyTags` | critter_api.py:193-197 | an unwrapped item with its tags put back is the original item |
| `ScanHelpers.LexLeIsTotalPreorder` | critter_api.py:184 | Python's string order is total and transitive, so `sorted` is well defined on string keys |
| `Sorting.SortDescCorrect` | critter_api.py:184 | `sorted(..., reverse=True)` returns a permutation of its input; keys do not increase from start to end; the items of each key keep their input order |
| `ScanHelpers.SortResponses` | critter_api.py:183-184 | no result (a `KeyError`) exactly when some item lacks a `submitted_int` number; otherwise a permutation of the input with string keys non-increasing and equal keys in input order |
| `ScanHelpers.SortResponsesUnique` | critter_api.py:184 | any permutation of the items with non-increasing string keys and equal keys in input order is the answer of `SortResponses`, so its contract fixes the list Python's stable `sorted(..., reverse=True)` returns |
| `ScanHelpers.SortResponsesByValue` | critter_api.py:183-184 | the same sort, by the numeric value of `submitted_int`: a permutation, values non-increasing, stable; no result when some key is not a digit string |
| `ScanHelpers.LexicalSortMisordersNumbers` | critter_api.py:184 | for `submitted_int` values 10 and 9, the sort as written puts 9 first while the numeric sort puts 10 first |

## Left out

- The Flask app, routes, CORS, `JSONResponse` and the 400/404/500 error-page builders only format HTTP responses. The model stops at the `Outcome`.
- `get_payload` and the missing-token 400 of `devices` parse Flask's request object, which is not modelled.
- The Particle `requests.get` call and the boto3 `get_item`/`query` calls are network I/O. They are inputs: `RegistryReply`, `DeviceTable` and `QueryReply`.
- `Values.Normalize`: `float(...)` is a tag, not a floating-point parse. A voltage that `float` cannot parse (a non-numeric string, `None`) would raise and give a 500; the model does not capture this.
- `json.dumps` serialisation is not modelled. It would raise, and give a 500, on a `Decimal` left in a record or an event timestamp.
- A registry entry that is not a dictionary would raise inside the `try`. An entry missing a field raises when the loop reaches that field: `name` for every entry, `id` for an owned entry, `connected` for an owned entry with a record. The typed `RegistryDevice` excludes such entries.
- `current_milli_time` reads the wall clock. `version` echoes an imported constant. Neither is modelled.
- The tagged value `{tag: payload}` is the pair `AttrValue(tag, payload)`. So "the first key" (`keys()[0]`, which depends on dict order in Python 2) is always the one tag. The `ex.message` attribute is not modelled either, since only the 500 outcome is kept.
- `ScanHelpers.SortResponses`: `item['submitted_int']['N']` whose payload is not a string counts as a missing key. On the wire, `N` payloads are always strings.
- The per-device lookups in `devices` are modelled in sequence, as the source runs them.

## Findings

| source | as written | input that shows it | evidently intended | confidence | as-written member | corrected member |
|---|---|---|---|---|---|---|
| critter_api.py:184 | `sort_responses` sorts by `item['submitted_int']['N']`, which is a string on DynamoDB's wire, so the order is lexicographic | two items with `submitted_int` `{"N": "10"}` and `{"N": "9"}`: the result puts 9 before 10 | newest first by the integer value that the key's name `submitted_int` announces | medium, not executed | `ScanHelpers.LexicalSortMisordersNumbers` (on `ScanHelpers.SortResponses`) | `ScanHelpers.SortResponsesByValue` |

For digit strings of equal length, the lexicographic and the numeric order agree. The 13-digit millisecond stamps that `current_milli_time` (critter_api.py:19) produces all have that length, so the misordering is latent: it appears only when keys of different lengths are compared. The helper has no callers in the repository, so nothing else in the model depends on which version is used.
