# Plant-metrics time-series store, modelled in Dafny

The monitoring backend of the plant-business project keeps sensor readings
(temperature, humidity, light, soil moisture) in one `plant_metrics` table and
serves them over HTTP. This project models its core:

- **the table and its point operations** (`metric.rs`): a `Metrics.Table` class
  holding the rows, in the store's own order, and the next value of the `id`
  serial. Inserting (`post_metric`) and deleting by id (`delete_metric_by_id`)
  are methods that change the table. Looking up by id (`get_metric_by_id`) and
  by exact `recorded_at` (`get_metric_by_time`) are functions that read it.
- **the per-metric series routes** (`data.rs`): the eight near-identical
  handlers are one function, `Data.GetSeries`, over a four-valued `Metric` and
  an optional time cursor. It selects the rows whose metric column is non-null,
  keeps those strictly after the cursor, orders them by time, drops absent
  values into `DataEntry { time, data }` and wraps the series in a
  `TimeseriesData` bundle in which only the requested metric is present.
- **the record shapes and the timestamp codec** (`models.rs`):
  `PlantMetricEntity`, `PlantMetricInsert`, the decoding of an insert body
  (unknown, duplicate, ill-typed and missing fields are rejected), and
  `my_date_format`. That codec writes a naive timestamp as UTC in RFC 3339
  (section 5.6 of RFC 3339) and reads an RFC 3339 string back as naive UTC by
  subtracting its offset.

Files: `wrappers.dfy` (`Option`, `Result`), `models.dfy` (modules `DateFormat`
and `Models`), `data.dfy` (module `Data`), `metric.dfy` (module `Metrics`).

Representation choices:
- A timestamp is an integer count of microseconds since 1970-01-01T00:00:00.
  Microseconds are the resolution of the store's `timestamp` column.
- A wire time string is either `Rfc3339(local, offset)` or `NotRfc3339(text)`.
- `f32` values are carried as their 32-bit pattern, because they are never
  computed on. `i32` is a subset type of `int`.
- Storage failures are a parameter `failure: Option<DbError>` of each
  operation. The time the database stamps on an insert is a parameter `now`.

The code has no bundle of several metrics, no "before time" read or delete
and no descending order, so neither does the model. A delete that affects more
than one row answers `None`, as `(affected == 1).then(..)` does at
monitoring-backend/src/metric.rs:55. With `id` as the primary key this cannot
happen (`Metrics.UniqueIdCount`).

## Model

| member | source | states |
|---|---|---|
| `DateFormat.Serialize` | monitoring-backend/src/models.rs:35-41 | the written string is RFC 3339 with the offset `+00:00` (not `-00:00`) and denotes the stored naive time taken as UTC |
| `DateFormat.Deserialize` | monitoring-backend/src/models.rs:43-50 | only RFC 3339 with a valid offset is accepted; the result is the local time minus the offset; anything else is an error |
| `DateFormat.RoundTrip` | monitoring-backend/src/models.rs:35-50 | reading back a written timestamp gives the same naive timestamp |
| `DateFormat.DeserializeNormalises` | monitoring-backend/src/models.rs:47-49 | two strings decode to the same naive time exactly when they denote the same instant, whatever their offsets; re-writing a decoded time reads back to it |
| `DateFormat.OffsetIsSubtracted` | monitoring-backend/src/models.rs:47-49 | a local time written with offset `o` decodes to that local time minus `o` |
| `Models.Stored` | monitoring-backend/src/models.rs:9-29 | the row stored for an insert has the assigned id and time, and its four measurements are the insert's, each present |
| `Models.Scan` | monitoring-backend/src/models.rs:21-29 | the member pass never reports a missing field; an unknown-field error names a member of the body that is not a field; a duplicate-field error names a member already seen or given earlier in the body; an invalid-value error names a member whose value has the wrong type |
| `Models.Build` | monitoring-backend/src/models.rs:24-28 | the insert is built exactly when all four measurements were seen, and then holds the value seen for each; otherwise the error is a missing field that was not seen |
| `Models.DecodeInsert` | monitoring-backend/src/models.rs:21-29 | a rejection names the field at fault: a name that is not a field, a field given twice, a member whose value has the wrong type, or a measurement the body lacks |
| `Models.ScanSpec` | monitoring-backend/src/models.rs:21-29 | the member pass succeeds exactly when every name is a known field, no name repeats or was already seen, and every value has its field's type; on success it records each member's value under its name |
| `Models.DecodeInsertAccepts` | monitoring-backend/src/models.rs:21-29 | a body decodes exactly when it names each of the four measurements once, with a value of the right type, and nothing else |
| `Models.DecodeInsertCarries` | monitoring-backend/src/models.rs:24-29 | a decoded insert holds, for every member of the body, the value that member gave |
| `Models.UnknownFieldRejected` | monitoring-backend/src/models.rs:23 | a body with any field besides the four measurements is rejected |
| `Models.MissingFieldRejected` | monitoring-backend/src/models.rs:25-28 | a body missing any one of the four measurements is rejected |
| `Data.Column` | monitoring-backend/src/data.rs:14-20 | temperature and humidity columns hold `f32` values, light and soil moisture `i32` |
| `Data.Selected` | monitoring-backend/src/data.rs:46-53 | the selected pairs are no more than the rows, every one has a present value and is strictly after the cursor |
| `Data.InsertByTime` | monitoring-backend/src/data.rs:51 | inserting into a time-sorted sequence keeps it sorted and adds exactly that element |
| `Data.SortByTime` | monitoring-backend/src/data.rs:51 | `order(recorded_at.asc())` gives a time-sorted permutation of its input |
| `Data.EntriesAfter` | monitoring-backend/src/data.rs:50 | cutting at the cursor keeps every element strictly after the cursor, with its multiplicity, and nothing else |
| `Data.EntriesAfterSorted` | monitoring-backend/src/data.rs:50-51 | cutting a time-sorted sequence at the cursor keeps it sorted |
| `Data.DropAbsent` | monitoring-backend/src/data.rs:25-28 | `filter_map` never lengthens the sequence, and drops nothing when every value is present |
| `Data.DropAbsentCount` | monitoring-backend/src/data.rs:27 | an entry occurs in the output as many times as its present pair occurs in the input |
| `Data.DropAbsentPermutes` | monitoring-backend/src/data.rs:25-28 | `filter_map` of a permutation of the input is a permutation of the output |
| `Data.Series` | monitoring-backend/src/data.rs:14-28 | the series is non-decreasing in time and is a permutation of the present values of the selected rows, duplicates included |
| `Data.Bundle` | monitoring-backend/src/data.rs:29-34 | the requested metric is `Some(series)`, every other metric is `None` |
| `Data.GetSeries` | monitoring-backend/src/data.rs:37-68 | a route answers `Some` exactly when the cursor is absent or parses and the query does not fail |
| `Data.DropAbsentMembers` | monitoring-backend/src/data.rs:58-61 | `filter_map` keeps exactly the pairs with a present value |
| `Data.DropAbsentSorted` | monitoring-backend/src/data.rs:58-61 | dropping absent values keeps time order |
| `Data.SelectedMembers` | monitoring-backend/src/data.rs:48-52 | a pair is selected exactly when some row has that time and a present value for the metric, after the cursor |
| `Data.SeriesMembers` | monitoring-backend/src/data.rs:46-61 | an entry is in the series exactly when some row holds that value for the metric at that time, after the cursor; no entry comes from a null |
| `Data.TemperatureSeriesMembers` | monitoring-backend/src/data.rs:14-28 | the temperature series holds a reading exactly when some row's `temperature` column has that value at that time, after the cursor |
| `Data.LightSeriesMembers` | monitoring-backend/src/data.rs:127-140 | the light series holds a reading exactly when some row's `light` column has that value at that time, after the cursor |
| `Data.SeriesMultiplicity` | monitoring-backend/src/data.rs:14-28 | each entry occurs in the series exactly as many times as there are rows holding that value for the metric at that time, after the cursor |
| `Data.SelectedReadings` | monitoring-backend/src/data.rs:48-52 | a present pair is selected as many times as there are rows holding it after the cursor |
| `Data.SeriesLength` | monitoring-backend/src/data.rs:16-28 | without a cursor there is one entry per row whose metric is non-null |
| `Data.SeriesCursorRule` | monitoring-backend/src/data.rs:50 | an entry is in a cursor series exactly when it is in the full series and strictly later than the cursor |
| `Data.SeriesAfterCursor` | monitoring-backend/src/data.rs:50 | every entry of a cursor series is strictly after the cursor, so a row exactly at it is left out |
| `Data.CutInsert` | monitoring-backend/src/data.rs:50-51 | cutting at the cursor commutes with inserting into a sorted sequence |
| `Data.CutSort` | monitoring-backend/src/data.rs:50-51 | cutting at the cursor commutes with ordering by time |
| `Data.SeriesCursorIsCut` | monitoring-backend/src/data.rs:14-61 | the cursor series is exactly the full series' entries strictly after the cursor |
| `Data.GetSeriesShape` | monitoring-backend/src/data.rs:58-67 | a successful route holds the requested metric's series and leaves the other three out |
| `Data.EmptyTableGivesEmptySeries` | monitoring-backend/src/data.rs:29-34 | an empty table gives `Some([])` for the requested metric, not `None` |
| `Data.BadCursorGivesNone` | monitoring-backend/src/data.rs:42-45 | a cursor that is not RFC 3339 gives `None`, whatever the table and the store would do |
| `Data.CursorOffsetIrrelevant` | monitoring-backend/src/data.rs:42-50 | cursors for the same instant in different offsets give the same answer |
| `Data.SeriesOfTwo` | monitoring-backend/src/data.rs:14-28 | two rows with the metric, the later one stored first, come out oldest first |
| `Data.CursorBetweenTwo` | monitoring-backend/src/data.rs:46-61 | a cursor between two rows' times keeps only the later row |
| `Data.RouteAnswers` | monitoring-backend/src/data.rs:42-67 | a cursor route whose cursor parses answers the bundle of the series after the parsed time |
| `Data.TwoReadingsScenario` | monitoring-backend/src/data.rs:37-68 | two readings stored newest first come back oldest first, whatever the rows' other columns hold; a `+02:00` cursor at noon keeps only the later one |
| `Metrics.First` | monitoring-backend/src/metric.rs:35-39 | `first` answers a matching row of the table, and `None` exactly when no row matches |
| `Metrics.CountId` | monitoring-backend/src/metric.rs:49-51 | a delete affects no more rows than the table holds, and none exactly when no row has the id |
| `Metrics.WithoutId` | monitoring-backend/src/metric.rs:49-51 | the delete keeps exactly the rows with another id, and removes as many rows as it affects |
| `Metrics.WithoutIdKeepsUnique` | monitoring-backend/src/metric.rs:49-51 | with `id` the primary key, the rows left by a delete still have unique ids |
| `Metrics.UniqueIdCount` | monitoring-backend/src/metric.rs:55 | with `id` the primary key, a delete affects at most one row, and exactly one when the id is present |
| `Metrics.FirstFindsUnique` | monitoring-backend/src/metric.rs:36-38 | with unique ids, a lookup by a row's id finds that row |
| `Metrics.Table.MetricById` | monitoring-backend/src/metric.rs:33-43 | answers a row with that id; `None` exactly when there is none or the query fails |
| `Metrics.Table.MetricByTime` | monitoring-backend/src/metric.rs:58-75 | a found row was recorded exactly at the time's naive UTC value; `None` exactly when the time is not RFC 3339, the query fails, or no row has that time |
| `Metrics.Table.PostMetric` | monitoring-backend/src/metric.rs:16-31 | on success exactly one row is appended, its id is the serial's next value and new, the serial advances by one, its measurements are the insert's, and looking it up by id finds it; a store error is an `Err` and changes nothing |
| `Metrics.Table.DeleteMetricById` | monitoring-backend/src/metric.rs:45-56 | removes exactly the rows with that id; `Some(())` exactly when the id was present; afterwards the id is not found; a store error is an `Err`, distinct from `None`, and changes nothing |

## Left out

- HTTP and framework plumbing are not modelled: Rocket routes and their path-parameter parsing, `Created` responses, the `format = "json"` guard, async `conn.run`, Diesel's SQL generation and JSON encoding.
- The character grammar of RFC 3339 belongs to the date library and is not modelled. A wire time is its local date-time and offset, or an unparseable text. Leap seconds and the library's year range are left out.
- Fractions of a second finer than a microsecond are not modelled. Timestamps are at the store's microsecond resolution.
- `Data.Value`: one tagged value type for all four metrics is a choice of the model, so that a single function serves them. The code has separate `f32` series (monitoring-backend/src/data.rs:14, 72) and `i32` series (monitoring-backend/src/data.rs:127, 182). A `TimeseriesData` of the model could therefore hold a value whose tag does not match its metric, which the code's types rule out. `Data.Column`'s contract ties each tag to its metric, so every series the routes build is tagged correctly.
- Float semantics are not modelled. `f32` values are only carried, as bit patterns.
- A JSON number is given by its `f32` reading and its integer value, if it has one. How the JSON library reads number text is not modelled. A body that is not a JSON object is not modelled.
- The database default for `recorded_at` is not visible in the code. It is the parameter `now` of `PostMetric`.
- `Metrics.Table.PostMetric`: on a failed insert the model leaves the `id` serial unchanged, whereas Postgres does not roll back a sequence value it has handed out. Ids stay unique either way.
- SQL leaves the order among equal timestamps open, and `first` without `order` may return any matching row. The model fixes the store's row order in both places. The properties above depend only on time order, membership and counts. The exact sequence equality in `Data.SeriesCursorIsCut` holds under this fixed tie order.
- Concurrency is not modelled: each request runs alone against the table.
- `monitoring-backend/src/main.rs` is not part of this model. It is launch wiring, and its unmounted `get_timeseries` refers to names that are not defined.
- `monitoring-backend/src/main.rs` declares none of the modules `data`, `metric`, `models` or `schema` and mounts only `index`, so as the code stands none of the modelled handlers can be reached. The model describes the handlers as written.
- `DataEntry` and `TimeseriesData` are imported by monitoring-backend/src/data.rs:2 but defined in no file of the code. Their shape in `Data` (an entry of `time` and `data`; one optional series per metric) is read off how monitoring-backend/src/data.rs builds them.
- The chart frontend is not part of this model. `charts-frontend/src/refreshData.ts` does network fetches and `charts-frontend/src/stores.ts` holds UI flags.
