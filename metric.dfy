/** The point operations of monitoring-backend/src/metric.rs on the
    `plant_metrics` table: insert a reading, look one up by `id` or by
    `recorded_at`, and delete one by `id`. The table is held in memory as a
    sequence of rows in the store's own order together with the next value of
    its `id` serial. */
module Metrics {
  import opened Wrappers
  import opened DateFormat
  import opened Models

  /** The `filter` of a point lookup. */
  datatype Criterion = IdIs(id: int) | RecordedAtIs(time: Timestamp)

  predicate Matches(r: PlantMetricEntity, c: Criterion) {
    match c
    case IdIs(id) => r.id == id
    case RecordedAtIs(t) => r.recordedAt == t
  }

  /** `.filter(..).first(conn)`: a matching row if there is one. Without an
      `order` the store may pick any match; this model takes the first in row
      order, and what is proved does not depend on which. */
  function First(rows: seq<PlantMetricEntity>, c: Criterion): (r: Option<PlantMetricEntity>)
    ensures r.Some? ==> r.value in rows && Matches(r.value, c)
    ensures r.None? <==> forall i :: 0 <= i < |rows| ==> !Matches(rows[i], c)
  {
    if rows == [] then None
    else if Matches(rows[0], c) then Some(rows[0])
    else
      var r := First(rows[1..], c);
      assert forall i :: 0 < i < |rows| ==> rows[i] == rows[1..][i - 1];
      r
  }

  /** `id` is the table's primary key. */
  predicate UniqueIds(rows: seq<PlantMetricEntity>) {
    forall i, j :: 0 <= i < j < |rows| ==> rows[i].id != rows[j].id
  }

  predicate HasId(rows: seq<PlantMetricEntity>, id: int) {
    exists i :: 0 <= i < |rows| && rows[i].id == id
  }

  /** The number of rows a `delete … filter(id.eq(id))` affects. */
  function CountId(rows: seq<PlantMetricEntity>, id: int): (n: nat)
    ensures n <= |rows|
    ensures n == 0 <==> !HasId(rows, id)
  {
    if rows == [] then 0
    else
      var rest := CountId(rows[1..], id);
      assert forall i :: 0 < i < |rows| ==> rows[i] == rows[1..][i - 1];
      (if rows[0].id == id then 1 else 0) + rest
  }

  lemma UniqueTail(rows: seq<PlantMetricEntity>)
    requires UniqueIds(rows) && rows != []
    ensures UniqueIds(rows[1..])
    ensures forall x :: x in rows[1..] ==> x.id != rows[0].id
  {
  }

  lemma ConsUnique(a: PlantMetricEntity, s: seq<PlantMetricEntity>)
    requires UniqueIds(s)
    requires forall x :: x in s ==> x.id != a.id
    ensures UniqueIds([a] + s)
  {
  }

  /** The rows a `delete … filter(id.eq(id))` leaves, in their order. */
  function WithoutId(rows: seq<PlantMetricEntity>, id: int): (r: seq<PlantMetricEntity>)
    ensures forall x :: x in r <==> x in rows && x.id != id
    ensures |r| + CountId(rows, id) == |rows|
  {
    if rows == [] then []
    else
      assert rows == [rows[0]] + rows[1..];
      if rows[0].id == id then WithoutId(rows[1..], id)
      else [rows[0]] + WithoutId(rows[1..], id)
  }

  /** A delete keeps the ids of the remaining rows unique. */
  lemma {:induction false} WithoutIdKeepsUnique(rows: seq<PlantMetricEntity>, id: int)
    requires UniqueIds(rows)
    ensures UniqueIds(WithoutId(rows, id))
  {
    if rows != [] {
      UniqueTail(rows);
      WithoutIdKeepsUnique(rows[1..], id);
      if rows[0].id != id {
        ConsUnique(rows[0], WithoutId(rows[1..], id));
      }
    }
  }

  /** With unique ids a delete by id affects at most one row, and exactly one
      when the id is present. */
  lemma {:induction false} UniqueIdCount(rows: seq<PlantMetricEntity>, id: int)
    requires UniqueIds(rows)
    ensures CountId(rows, id) <= 1
    ensures CountId(rows, id) == 1 <==> HasId(rows, id)
  {
    if rows != [] {
      var rest := rows[1..];
      assert UniqueIds(rest) by {
        forall i, j | 0 <= i < j < |rest| ensures rest[i].id != rest[j].id {
          assert rest[i] == rows[i + 1] && rest[j] == rows[j + 1];
        }
      }
      UniqueIdCount(rest, id);
      assert HasId(rows, id) <==> rows[0].id == id || HasId(rest, id) by {
        if HasId(rows, id) && rows[0].id != id {
          var i :| 0 <= i < |rows| && rows[i].id == id;
          assert rest[i - 1] == rows[i];
        }
        if HasId(rest, id) {
          var i :| 0 <= i < |rest| && rest[i].id == id;
          assert rows[i + 1] == rest[i];
        }
      }
    }
  }

  /** With unique ids a lookup by id finds the one row with that id. */
  lemma FirstFindsUnique(rows: seq<PlantMetricEntity>, x: PlantMetricEntity)
    requires UniqueIds(rows) && x in rows
    ensures First(rows, IdIs(x.id)) == Some(x)
  {
  }

  /** The `plant_metrics` table. */
  class Table {
    var rows: seq<PlantMetricEntity>
    /** The next value of the `id` serial. */
    var nextId: int

    ghost predicate Valid()
      reads this
    {
      && 1 <= nextId <= I32_MAX + 1
      && UniqueIds(rows)
      && forall i :: 0 <= i < |rows| ==> 1 <= rows[i].id < nextId
    }

    constructor ()
      ensures Valid() && rows == [] && nextId == 1
    {
      rows := [];
      nextId := 1;
    }

    /** `get_metric_by_id`: the row with that id, or `None` when there is none
        or the query fails. */
    function MetricById(id: I32, failure: Option<DbError>): (r: Option<PlantMetricEntity>)
      reads this
      ensures r.Some? ==> r.value in rows && r.value.id == id
      ensures r.None? <==> failure.Some? || !HasId(rows, id)
    {
      if failure.Some? then None else First(rows, IdIs(id))
    }

    /** `get_metric_by_time`: a row recorded exactly at the time's naive UTC
        value; `None` when the time is not RFC 3339 (the table is not queried),
        when no row has that time, or when the query fails. */
    function MetricByTime(time: WireTime, failure: Option<DbError>): (r: Option<PlantMetricEntity>)
      reads this
      ensures r.Some? ==>
        Deserialize(time).Ok? && r.value in rows && r.value.recordedAt == Deserialize(time).value
      ensures r.None? <==>
        || Deserialize(time).Err?
        || failure.Some?
        || forall i :: 0 <= i < |rows| ==> rows[i].recordedAt != Deserialize(time).value
    {
      match Deserialize(time)
      case Err(_) => None
      case Ok(t) => if failure.Some? then None else First(rows, RecordedAtIs(t))
    }

    /** `post_metric`: inserts one row with the next id and the insert time
        `now` (the column default), and answers it. A failing store, or an
        exhausted `id` serial, is an error and changes nothing. */
    method PostMetric(m: PlantMetricInsert, now: Timestamp, failure: Option<DbError>)
      returns (r: Result<PlantMetricEntity, DbError>)
      requires Valid()
      modifies this
      ensures Valid()
      ensures r.Ok? <==> failure.None? && old(nextId) <= I32_MAX
      ensures r.Err? ==> rows == old(rows) && nextId == old(nextId)
      ensures r.Ok? ==>
        && !HasId(old(rows), r.value.id)
        && r.value.id == old(nextId)
        && nextId == old(nextId) + 1
        && r.value == Stored(r.value.id, now, m)
        && rows == old(rows) + [r.value]
        && MetricById(r.value.id, None) == Some(r.value)
    {
      if failure.Some? {
        return Err(failure.value);
      }
      if nextId > I32_MAX {
        return Err(DatabaseError("nextval: reached maximum value of sequence \"plant_metrics_id_seq\""));
      }
      var row := Stored(nextId, now, m);
      rows := rows + [row];
      nextId := nextId + 1;
      FirstFindsUnique(rows, row);
      r := Ok(row);
    }

    /** `delete_metric_by_id`: removes the rows with that id and answers
        `Some(())` when exactly one row was affected, `None` otherwise. A failing
        store is an error, distinct from `None`, and changes nothing. */
    method DeleteMetricById(id: I32, failure: Option<DbError>) returns (r: Result<Option<()>, DbError>)
      requires Valid()
      modifies this
      ensures Valid() && nextId == old(nextId)
      ensures failure.Some? ==> r == Err(failure.value) && rows == old(rows)
      ensures failure.None? ==>
        && rows == WithoutId(old(rows), id)
        && r.Ok?
        && (r.value.Some? <==> HasId(old(rows), id))
        && MetricById(id, None).None?
    {
      if failure.Some? {
        return Err(failure.value);
      }
      var remaining := WithoutId(rows, id);
      var affected := |rows| - |remaining|;
      UniqueIdCount(rows, id);
      WithoutIdKeepsUnique(rows, id);
      rows := remaining;
      r := Ok(if affected == 1 then Some(()) else None);
    }
  }
}
