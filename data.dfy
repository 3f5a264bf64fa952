/** The per-metric series routes of monitoring-backend/src/data.rs.

    The file has eight near-identical handlers, one per metric with and without
    a time cursor. Each loads the rows whose metric column is non-null (and,
    with a cursor, whose `recorded_at` is strictly after it), ordered ascending
    by `recorded_at`, as `(recorded_at, value)` pairs; drops absent values into
    `DataEntry { time, data }`; and answers a `TimeseriesData` bundle in which
    only the requested metric is present. Here they are one function over a
    `Metric` and an optional cursor. */
module Data {
  import opened Wrappers
  import opened DateFormat
  import opened Models

  datatype Metric = Temperature | Humidity | Light | SoilMoisture

  /** A value of one metric column: `f32` for temperature and humidity,
      `i32` for light and soil moisture. */
  datatype Value = Real(f: Float32) | Whole(n: I32)

  /** A reading at a time. `DataEntry { time, data }` is an entry with a
      value; a loaded `(recorded_at, column)` pair is one whose column is
      still nullable. */
  datatype Entry<V> = Entry(time: Timestamp, data: V)

  type DataEntry = Entry<Value>

  type Loaded = Entry<Option<Value>>

  /** `TimeseriesData`: one optional series per metric, in the shape its
      uses in the handlers imply. */
  datatype TimeseriesData = TimeseriesData(
    temperature: Option<seq<DataEntry>>,
    humidity: Option<seq<DataEntry>>,
    light: Option<seq<DataEntry>>,
    soilMoisture: Option<seq<DataEntry>>)
  {
    function Field(m: Metric): Option<seq<DataEntry>> {
      match m
      case Temperature => temperature
      case Humidity => humidity
      case Light => light
      case SoilMoisture => soilMoisture
    }
  }

  /** The column of metric `m` in row `r`: the second component of each
      handler's `.select((recorded_at, <column>))`, which reads `temperature`,
      `humidity`, `light` or `soil_moisture`. Every series property is stated
      through this definition. */
  function Column(r: PlantMetricEntity, m: Metric): (v: Option<Value>)
    ensures v.Some? ==> (v.value.Real? <==> m == Temperature || m == Humidity)
  {
    match m
    case Temperature => if r.temperature.Some? then Some(Real(r.temperature.value)) else None
    case Humidity => if r.humidity.Some? then Some(Real(r.humidity.value)) else None
    case Light => if r.light.Some? then Some(Whole(r.light.value)) else None
    case SoilMoisture => if r.soilMoisture.Some? then Some(Whole(r.soilMoisture.value)) else None
  }

  /** The cursor filter `recorded_at > cursor`; no cursor keeps everything. */
  predicate After(cursor: Option<Timestamp>, t: Timestamp) {
    cursor.None? || cursor.value < t
  }

  /** The query's `filter`s and `select`, in the table's own row order. */
  function Selected(rows: seq<PlantMetricEntity>, m: Metric, cursor: Option<Timestamp>): (s: seq<Loaded>)
    ensures |s| <= |rows|
    ensures forall i :: 0 <= i < |s| ==> s[i].data.Some? && After(cursor, s[i].time)
  {
    if rows == [] then []
    else
      var r := rows[0];
      if Column(r, m).Some? && After(cursor, r.recordedAt)
      then [Entry(r.recordedAt, Column(r, m))] + Selected(rows[1..], m, cursor)
      else Selected(rows[1..], m, cursor)
  }

  predicate SortedByTime<V>(s: seq<Entry<V>>) {
    forall i, j :: 0 <= i < j < |s| ==> s[i].time <= s[j].time
  }

  /** `a` followed by `s` is sorted exactly when `s` is and nothing in `s` is
      earlier than `a`. */
  lemma SortedCons<V>(a: Entry<V>, s: seq<Entry<V>>)
    ensures SortedByTime([a] + s) <==>
      SortedByTime(s) && forall y :: y in multiset(s) ==> a.time <= y.time
  {
    var t := [a] + s;
    if SortedByTime(t) {
      forall y | y in multiset(s) ensures a.time <= y.time {
        assert y in s;
        var k :| 0 <= k < |s| && s[k] == y;
        assert t[0] == a && t[k + 1] == y;
      }
      forall i, j | 0 <= i < j < |s| ensures s[i].time <= s[j].time {
        assert t[i + 1] == s[i] && t[j + 1] == s[j];
      }
    }
    if SortedByTime(s) && forall y :: y in multiset(s) ==> a.time <= y.time {
      forall i, j | 0 <= i < j < |t| ensures t[i].time <= t[j].time {
        assert t[j] == s[j - 1] && s[j - 1] in multiset(s);
        if i > 0 { assert t[i] == s[i - 1]; }
      }
    }
  }

  /** Puts `x` before the first element that is not earlier than it. */
  function InsertByTime(x: Loaded, s: seq<Loaded>): (r: seq<Loaded>)
    ensures SortedByTime(s) ==> SortedByTime(r)
    ensures multiset(r) == multiset(s) + multiset{x}
  {
    if s == [] then [x]
    else
      assert s == [s[0]] + s[1..];
      SortedCons(s[0], s[1..]);
      if x.time <= s[0].time then
        SortedCons(x, s);
        [x] + s
      else
        var rest := InsertByTime(x, s[1..]);
        SortedCons(s[0], rest);
        [s[0]] + rest
  }

  /** `order(recorded_at.asc())`. The store leaves the order among equal
      timestamps open; this model fixes one (the table's row order), and what
      is proved about the series depends only on the order by time. */
  function SortByTime(s: seq<Loaded>): (r: seq<Loaded>)
    ensures SortedByTime(r)
    ensures multiset(r) == multiset(s)
  {
    if s == [] then []
    else
      assert s == [s[0]] + s[1..];
      InsertByTime(s[0], SortByTime(s[1..]))
  }

  /** `filter_map(|(time, v)| v.map(|data| DataEntry { time, data }))`. */
  function DropAbsent(s: seq<Loaded>): (r: seq<DataEntry>)
    ensures |r| <= |s|
    ensures (forall i :: 0 <= i < |s| ==> s[i].data.Some?) ==> |r| == |s|
  {
    if s == [] then []
    else if s[0].data.Some? then [Entry(s[0].time, s[0].data.value)] + DropAbsent(s[1..])
    else DropAbsent(s[1..])
  }

  /** An entry occurs in `DropAbsent(s)` as often as its present pair occurs
      in `s`. */
  lemma {:induction false} DropAbsentCount(s: seq<Loaded>, e: DataEntry)
    ensures multiset(DropAbsent(s))[e] == multiset(s)[Entry(e.time, Some(e.data))]
  {
    if s != [] {
      DropAbsentCount(s[1..], e);
      assert s == [s[0]] + s[1..];
    }
  }

  /** Dropping absent values maps permutations to permutations. */
  lemma DropAbsentPermutes(s: seq<Loaded>, t: seq<Loaded>)
    requires multiset(s) == multiset(t)
    ensures multiset(DropAbsent(s)) == multiset(DropAbsent(t))
  {
    forall e: DataEntry ensures multiset(DropAbsent(s))[e] == multiset(DropAbsent(t))[e] {
      DropAbsentCount(s, e);
      DropAbsentCount(t, e);
    }
  }

  lemma {:induction false} DropAbsentSorted(s: seq<Loaded>)
    requires SortedByTime(s)
    ensures SortedByTime(DropAbsent(s))
  {
    if s != [] {
      assert s == [s[0]] + s[1..];
      SortedCons(s[0], s[1..]);
      DropAbsentSorted(s[1..]);
      var rest := DropAbsent(s[1..]);
      if s[0].data.Some? {
        forall y: DataEntry | y in multiset(rest) ensures s[0].time <= y.time {
          DropAbsentCount(s[1..], y);
        }
        SortedCons(Entry(s[0].time, s[0].data.value), rest);
      }
    }
  }

  /** The series one handler loads and shapes: in ascending order of time,
      and a permutation of the selected rows' present values. */
  function Series(rows: seq<PlantMetricEntity>, m: Metric, cursor: Option<Timestamp>): (r: seq<DataEntry>)
    ensures SortedByTime(r)
    ensures multiset(r) == multiset(DropAbsent(Selected(rows, m, cursor)))
  {
    var sel := Selected(rows, m, cursor);
    DropAbsentSorted(SortByTime(sel));
    DropAbsentPermutes(SortByTime(sel), sel);
    DropAbsent(SortByTime(sel))
  }

  /** The response body: the requested metric's series, nothing for the others. */
  function Bundle(m: Metric, s: seq<DataEntry>): (b: TimeseriesData)
    ensures b.Field(m) == Some(s)
    ensures forall other :: other != m ==> b.Field(other).None?
  {
    match m
    case Temperature => TimeseriesData(Some(s), None, None, None)
    case Humidity => TimeseriesData(None, Some(s), None, None)
    case Light => TimeseriesData(None, None, Some(s), None)
    case SoilMoisture => TimeseriesData(None, None, None, Some(s))
  }

  /** A series route. `cursor` is the `<time>` path segment of the `_after`
      routes and `None` for the plain ones; `failure` is the outcome of the
      query, which the handler turns into `None` with `.ok()?`. A cursor that
      is not RFC 3339 answers `None` before the table is queried. */
  function GetSeries(rows: seq<PlantMetricEntity>, m: Metric, cursor: Option<WireTime>, failure: Option<DbError>)
    : (r: Option<TimeseriesData>)
    ensures r.Some? <==> (cursor.None? || Deserialize(cursor.value).Ok?) && failure.None?
  {
    if cursor.Some? && Deserialize(cursor.value).Err? then None
    else if failure.Some? then None
    else
      var after := if cursor.Some? then Some(Deserialize(cursor.value).value) else None;
      Some(Bundle(m, Series(rows, m, after)))
  }

  // ---------------------------------------------------------------------------
  // Properties of the series
  // ---------------------------------------------------------------------------

  /** The rows whose metric column is present. */
  function CountPresent(rows: seq<PlantMetricEntity>, m: Metric): nat {
    if rows == [] then 0
    else (if Column(rows[0], m).Some? then 1 else 0) + CountPresent(rows[1..], m)
  }

  /** The rows that hold value `e.data` for metric `m` at time `e.time`,
      after the cursor. */
  function Readings(rows: seq<PlantMetricEntity>, m: Metric, cursor: Option<Timestamp>, e: DataEntry): nat {
    if rows == [] then 0
    else
      var r := rows[0];
      (if Column(r, m) == Some(e.data) && r.recordedAt == e.time && After(cursor, r.recordedAt) then 1 else 0)
      + Readings(rows[1..], m, cursor, e)
  }

  lemma {:induction false} DropAbsentMembers(s: seq<Loaded>, e: DataEntry)
    ensures e in DropAbsent(s) <==> Entry(e.time, Some(e.data)) in s
  {
    if s != [] {
      DropAbsentMembers(s[1..], e);
      assert s == [s[0]] + s[1..];
    }
  }

  lemma {:induction false} SelectedMembers(rows: seq<PlantMetricEntity>, m: Metric, cursor: Option<Timestamp>, x: Loaded)
    ensures x in Selected(rows, m, cursor) <==>
      exists r :: r in rows && x == Entry(r.recordedAt, Column(r, m)) && Column(r, m).Some? && After(cursor, r.recordedAt)
  {
    if rows != [] {
      SelectedMembers(rows[1..], m, cursor, x);
      assert rows == [rows[0]] + rows[1..];
      assert forall r :: r in rows <==> r == rows[0] || r in rows[1..];
    }
  }

  lemma {:induction false} SelectedCount(rows: seq<PlantMetricEntity>, m: Metric)
    ensures |Selected(rows, m, None)| == CountPresent(rows, m)
  {
    if rows != [] {
      SelectedCount(rows[1..], m);
    }
  }

  lemma {:induction false} SelectedReadings(rows: seq<PlantMetricEntity>, m: Metric, cursor: Option<Timestamp>, e: DataEntry)
    ensures multiset(Selected(rows, m, cursor))[Entry(e.time, Some(e.data))] == Readings(rows, m, cursor, e)
  {
    if rows != [] {
      SelectedReadings(rows[1..], m, cursor, e);
    }
  }

  /** Every entry of a series comes from a row whose metric column holds that
      value at that time and, with a cursor, is after it; and every such row
      gives an entry. No entry is made for a null column. */
  lemma SeriesMembers(rows: seq<PlantMetricEntity>, m: Metric, cursor: Option<Timestamp>, e: DataEntry)
    ensures e in Series(rows, m, cursor) <==>
      exists r :: r in rows && Column(r, m) == Some(e.data) && r.recordedAt == e.time && After(cursor, r.recordedAt)
  {
    var sel := Selected(rows, m, cursor);
    var x := Entry(e.time, Some(e.data));
    DropAbsentMembers(SortByTime(sel), e);
    assert x in SortByTime(sel) <==> x in multiset(SortByTime(sel));
    SelectedMembers(rows, m, cursor, x);
  }

  /** The temperature series holds `(t, v)` exactly when some row's
      `temperature` column is `v` at time `t`, after the cursor. */
  lemma TemperatureSeriesMembers(rows: seq<PlantMetricEntity>, cursor: Option<Timestamp>, t: Timestamp, v: Float32)
    ensures Entry(t, Real(v)) in Series(rows, Temperature, cursor) <==>
      exists r :: r in rows && r.temperature == Some(v) && r.recordedAt == t && After(cursor, t)
  {
    SeriesMembers(rows, Temperature, cursor, Entry(t, Real(v)));
  }

  /** The light series holds `(t, n)` exactly when some row's `light` column
      is `n` at time `t`, after the cursor. */
  lemma LightSeriesMembers(rows: seq<PlantMetricEntity>, cursor: Option<Timestamp>, t: Timestamp, n: I32)
    ensures Entry(t, Whole(n)) in Series(rows, Light, cursor) <==>
      exists r :: r in rows && r.light == Some(n) && r.recordedAt == t && After(cursor, t)
  {
    SeriesMembers(rows, Light, cursor, Entry(t, Whole(n)));
  }

  /** An entry occurs in the series exactly as many times as there are rows
      holding that value for the metric at that time, after the cursor. */
  lemma SeriesMultiplicity(rows: seq<PlantMetricEntity>, m: Metric, cursor: Option<Timestamp>, e: DataEntry)
    ensures multiset(Series(rows, m, cursor))[e] == Readings(rows, m, cursor, e)
  {
    DropAbsentCount(Selected(rows, m, cursor), e);
    SelectedReadings(rows, m, cursor, e);
  }

  /** Without a cursor there is one entry per row whose metric is non-null:
      nulls were filtered out by the query, so `filter_map` drops nothing. */
  lemma SeriesLength(rows: seq<PlantMetricEntity>, m: Metric)
    ensures |Series(rows, m, None)| == CountPresent(rows, m)
  {
    var sel := Selected(rows, m, None);
    var r := Series(rows, m, None);
    assert |r| == |multiset(r)| == |multiset(DropAbsent(sel))| == |DropAbsent(sel)|;
    SelectedCount(rows, m);
  }

  /** Every entry of a cursor series is strictly after the cursor, so a row
      recorded exactly at the cursor is left out. */
  lemma SeriesAfterCursor(rows: seq<PlantMetricEntity>, m: Metric, c: Timestamp, e: DataEntry)
    requires e in Series(rows, m, Some(c))
    ensures e.time > c
  {
    SeriesMembers(rows, m, Some(c), e);
  }

  /** An entry is in a cursor series exactly when it is in the full series
      and strictly later than the cursor. */
  lemma SeriesCursorRule(rows: seq<PlantMetricEntity>, m: Metric, c: Timestamp, e: DataEntry)
    ensures e in Series(rows, m, Some(c)) <==> e in Series(rows, m, None) && e.time > c
  {
    SeriesMembers(rows, m, Some(c), e);
    SeriesMembers(rows, m, None, e);
  }

  // The cursor series is the full series cut at the cursor.

  /** The elements of `s` strictly after `c`, in order. */
  function EntriesAfter<V(==)>(s: seq<Entry<V>>, c: Timestamp): (r: seq<Entry<V>>)
    ensures multiset(r) <= multiset(s)
    ensures forall i :: 0 <= i < |r| ==> r[i].time > c
    ensures forall i :: 0 <= i < |s| && s[i].time > c ==> multiset(r)[s[i]] == multiset(s)[s[i]]
  {
    if s == [] then []
    else
      assert s == [s[0]] + s[1..];
      if s[0].time > c then [s[0]] + EntriesAfter(s[1..], c)
      else EntriesAfter(s[1..], c)
  }

  /** Cutting a sorted sequence keeps it sorted. */
  lemma {:induction false} EntriesAfterSorted<V>(s: seq<Entry<V>>, c: Timestamp)
    requires SortedByTime(s)
    ensures SortedByTime(EntriesAfter(s, c))
  {
    if s != [] {
      assert s == [s[0]] + s[1..];
      SortedCons(s[0], s[1..]);
      EntriesAfterSorted(s[1..], c);
      SortedCons(s[0], EntriesAfter(s[1..], c));
    }
  }

  lemma {:induction false} SelectedCut(rows: seq<PlantMetricEntity>, m: Metric, c: Timestamp)
    ensures Selected(rows, m, Some(c)) == EntriesAfter(Selected(rows, m, None), c)
  {
    if rows != [] {
      SelectedCut(rows[1..], m, c);
    }
  }

  lemma {:induction false} EntriesAfterOfSorted<V>(s: seq<Entry<V>>, c: Timestamp)
    requires SortedByTime(s)
    requires s != [] && s[0].time > c
    ensures EntriesAfter(s, c) == s
  {
    if |s| > 1 {
      EntriesAfterOfSorted(s[1..], c);
    }
  }

  lemma {:induction false} CutInsert(x: Loaded, s: seq<Loaded>, c: Timestamp)
    requires SortedByTime(s)
    ensures EntriesAfter(InsertByTime(x, s), c) ==
      if x.time > c then InsertByTime(x, EntriesAfter(s, c)) else EntriesAfter(s, c)
  {
    if s == [] {
    } else if x.time <= s[0].time {
      assert InsertByTime(x, s) == [x] + s;
      if x.time > c {
        EntriesAfterOfSorted(s, c);
      }
    } else {
      assert s == [s[0]] + s[1..];
      SortedCons(s[0], s[1..]);
      var t := s[1..];
      var ins := InsertByTime(x, t);
      assert InsertByTime(x, s) == [s[0]] + ins;
      assert ([s[0]] + ins)[1..] == ins;
      CutInsert(x, t, c);
      if s[0].time > c {
        var cut := EntriesAfter(t, c);
        assert EntriesAfter(s, c) == [s[0]] + cut;
        assert EntriesAfter(InsertByTime(x, s), c) == [s[0]] + EntriesAfter(ins, c);
        assert InsertByTime(x, [s[0]] + cut) == [s[0]] + InsertByTime(x, cut) by {
          assert ([s[0]] + cut)[0] == s[0] && ([s[0]] + cut)[1..] == cut;
        }
      } else {
        assert EntriesAfter(s, c) == EntriesAfter(t, c);
        assert EntriesAfter(InsertByTime(x, s), c) == EntriesAfter(ins, c);
      }
    }
  }

  lemma {:induction false} CutSort(s: seq<Loaded>, c: Timestamp)
    ensures EntriesAfter(SortByTime(s), c) == SortByTime(EntriesAfter(s, c))
  {
    if s != [] {
      CutSort(s[1..], c);
      CutInsert(s[0], SortByTime(s[1..]), c);
    }
  }

  lemma {:induction false} CutDropAbsent(s: seq<Loaded>, c: Timestamp)
    ensures DropAbsent(EntriesAfter(s, c)) == EntriesAfter(DropAbsent(s), c)
  {
    if s != [] {
      CutDropAbsent(s[1..], c);
    }
  }

  /** The cursor route answers exactly the full series' entries strictly after
      the cursor, in the same order. */
  lemma SeriesCursorIsCut(rows: seq<PlantMetricEntity>, m: Metric, c: Timestamp)
    ensures Series(rows, m, Some(c)) == EntriesAfter(Series(rows, m, None), c)
  {
    var sel := Selected(rows, m, None);
    SelectedCut(rows, m, c);
    CutSort(sel, c);
    CutDropAbsent(SortByTime(sel), c);
  }

  // ---------------------------------------------------------------------------
  // Properties of the routes
  // ---------------------------------------------------------------------------

  /** A successful route answers the requested metric as a series (empty when
      no row has it) and leaves the other three out. */
  lemma GetSeriesShape(rows: seq<PlantMetricEntity>, m: Metric, cursor: Option<WireTime>)
    requires cursor.None? || Deserialize(cursor.value).Ok?
    ensures var r := GetSeries(rows, m, cursor, None);
      && r.Some?
      && r.value.Field(m) == Some(Series(rows, m, if cursor.Some? then Some(Deserialize(cursor.value).value) else None))
      && forall other :: other != m ==> r.value.Field(other).None?
  {
  }

  /** An empty table gives `Some([])` for the requested metric, not `None`. */
  lemma EmptyTableGivesEmptySeries(m: Metric, cursor: Option<WireTime>)
    requires cursor.None? || Deserialize(cursor.value).Ok?
    ensures GetSeries([], m, cursor, None) == Some(Bundle(m, []))
  {
  }

  /** A cursor that is not RFC 3339 answers `None`, whatever the table holds and
      whether or not the store would have failed. */
  lemma BadCursorGivesNone(rows: seq<PlantMetricEntity>, m: Metric, cursor: WireTime, failure: Option<DbError>)
    requires Deserialize(cursor).Err?
    ensures GetSeries(rows, m, Some(cursor), failure).None?
  {
  }

  /** A cursor route given `t` answers the entries after `t`'s naive UTC time:
      the same series whatever offset `t` is written in. */
  lemma CursorOffsetIrrelevant(rows: seq<PlantMetricEntity>, m: Metric, w1: WireTime, w2: WireTime)
    requires Deserialize(w1).Ok? && Deserialize(w2).Ok? && Instant(w1) == Instant(w2)
    ensures GetSeries(rows, m, Some(w1), None) == GetSeries(rows, m, Some(w2), None)
  {
  }

  lemma SelectedOfTwo(r1: PlantMetricEntity, r2: PlantMetricEntity, m: Metric)
    requires Column(r1, m).Some? && Column(r2, m).Some?
    ensures Selected([r1, r2], m, None) == [Entry(r1.recordedAt, Column(r1, m)), Entry(r2.recordedAt, Column(r2, m))]
  {
  }

  lemma SortOfTwo(l1: Loaded, l2: Loaded)
    requires l2.time < l1.time
    ensures SortByTime([l1, l2]) == [l2, l1]
  {
  }

  lemma DropAbsentOfTwo(l1: Loaded, l2: Loaded)
    requires l1.data.Some? && l2.data.Some?
    ensures DropAbsent([l1, l2]) == [Entry(l1.time, l1.data.value), Entry(l2.time, l2.data.value)]
  {
  }

  /** Two rows with the metric, the later one stored first, come out
      oldest first. */
  lemma SeriesOfTwo(r1: PlantMetricEntity, r2: PlantMetricEntity, m: Metric)
    requires Column(r1, m).Some? && Column(r2, m).Some? && r2.recordedAt < r1.recordedAt
    ensures Series([r1, r2], m, None) ==
      [Entry(r2.recordedAt, Column(r2, m).value), Entry(r1.recordedAt, Column(r1, m).value)]
  {
    var l1 := Entry(r1.recordedAt, Column(r1, m));
    var l2 := Entry(r2.recordedAt, Column(r2, m));
    SelectedOfTwo(r1, r2, m);
    SortOfTwo(l1, l2);
    DropAbsentOfTwo(l2, l1);
  }

  /** A cursor between the two rows' times keeps only the later row. */
  lemma CursorBetweenTwo(r1: PlantMetricEntity, r2: PlantMetricEntity, m: Metric, c: Timestamp)
    requires Column(r1, m).Some? && Column(r2, m).Some? && r2.recordedAt <= c < r1.recordedAt
    ensures Series([r1, r2], m, Some(c)) == [Entry(r1.recordedAt, Column(r1, m).value)]
  {
    var e1 := Entry(r2.recordedAt, Column(r2, m).value);
    var e2 := Entry(r1.recordedAt, Column(r1, m).value);
    SeriesOfTwo(r1, r2, m);
    SeriesCursorIsCut([r1, r2], m, c);
    assert [e1, e2][1..] == [e2] && [e2][1..] == [];
  }

  /** A cursor route with a parsed cursor answers the series after it. */
  lemma RouteAnswers(rows: seq<PlantMetricEntity>, m: Metric, cursor: WireTime, c: Timestamp)
    requires Deserialize(cursor) == Ok(c)
    ensures GetSeries(rows, m, Some(cursor), None) == Some(Bundle(m, Series(rows, m, Some(c))))
  {
  }

  /** Two readings, stored newest first: 21.0 (0x41A80000 as `f32`) at
      2024-01-02T00:00:00Z, then 20.0 (0x41A00000) at 2024-01-01T00:00:00Z,
      whatever the rows' other columns hold. The temperature series lists them
      oldest first, and a cursor of 2024-01-01T12:00:00+02:00 (10:00 UTC)
      keeps only the later one. */
  lemma TwoReadingsScenario(newer: PlantMetricEntity, older: PlantMetricEntity, cursor: WireTime)
    requires newer.recordedAt == 1_704_153_600_000_000 && newer.temperature == Some(0x41A8_0000)
    requires older.recordedAt == 1_704_067_200_000_000 && older.temperature == Some(0x41A0_0000)
    requires cursor == Rfc3339(1_704_067_200_000_000 + 12 * 60 * MicrosPerMinute, Offset(false, 2, 0))
    ensures GetSeries([newer, older], Temperature, None, None) ==
      Some(Bundle(Temperature, [
        Entry(1_704_067_200_000_000, Real(0x41A0_0000)),
        Entry(1_704_153_600_000_000, Real(0x41A8_0000))]))
    ensures GetSeries([newer, older], Temperature, Some(cursor), None) ==
      Some(Bundle(Temperature, [Entry(1_704_153_600_000_000, Real(0x41A8_0000))]))
  {
    var c := older.recordedAt + 10 * 60 * MicrosPerMinute;
    SeriesOfTwo(newer, older, Temperature);
    CursorBetweenTwo(newer, older, Temperature, c);
    RouteAnswers([newer, older], Temperature, cursor, c);
  }
}
