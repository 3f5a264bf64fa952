/** The timestamp codec of `my_date_format` (monitoring-backend/src/models.rs:31-51).

    A stored `recorded_at` is a naive date-time with no zone. The codec treats it
    as UTC when writing it out and, when reading a string in, applies the string's
    offset to get back a naive UTC date-time. The same reading is used for the
    time cursors of the series and lookup routes. */
module DateFormat {
  import opened Wrappers

  /** A naive date-time as a count of microseconds since 1970-01-01T00:00:00,
      the resolution of the store's `timestamp` column. */
  type Timestamp = int

  const MicrosPerMinute: int := 60_000_000

  /** The `time-numoffset` of RFC 3339 (section 5.6): a sign, hours and minutes.
      `Z` is written as `+00:00`. */
  datatype Offset = Offset(negative: bool, hours: int, minutes: int)

  /** A time string at the wire. The character grammar of RFC 3339 belongs to
      the date library and is not modelled: a string that follows it is given by
      its local date-time and its offset, any other string by its text. */
  datatype WireTime =
    | Rfc3339(local: Timestamp, offset: Offset)
    | NotRfc3339(text: string)

  datatype TimeFormatError = TimeFormatError(text: string)

  /** The offset that `to_rfc3339` writes for a UTC date-time. */
  const Utc: Offset := Offset(false, 0, 0)

  /** RFC 3339 allows offset hours 00-23 and minutes 00-59. */
  predicate ValidOffset(o: Offset) {
    0 <= o.hours <= 23 && 0 <= o.minutes <= 59
  }

  /** How far local time is ahead of UTC. */
  function OffsetMicros(o: Offset): int {
    (if o.negative then -1 else 1) * (o.hours * 60 + o.minutes) * MicrosPerMinute
  }

  /** The instant a well-formed wire time denotes, as a naive UTC date-time. */
  function Instant(w: WireTime): Timestamp
    requires w.Rfc3339?
  {
    w.local - OffsetMicros(w.offset)
  }

  /** `serialize`: the naive date-time is taken as UTC and written as RFC 3339
      with the offset `+00:00` (never `-00:00`, which section 4.3 of RFC 3339
      reserves for an unknown offset). */
  function Serialize(t: Timestamp): (w: WireTime)
    ensures w.Rfc3339? && OffsetMicros(w.offset) == 0 && !w.offset.negative && ValidOffset(w.offset)
    ensures Instant(w) == t
  {
    Rfc3339(t, Utc)
  }

  /** `deserialize`, and equally `DateTime::parse_from_rfc3339(..).naive_utc()`
      as used by the cursor routes: only RFC 3339 is accepted, and the result is
      the local date-time minus the offset. */
  function Deserialize(w: WireTime): (r: Result<Timestamp, TimeFormatError>)
    ensures r.Ok? <==> w.Rfc3339? && ValidOffset(w.offset)
    ensures r.Ok? ==> r.value + OffsetMicros(w.offset) == w.local
  {
    match w
    case NotRfc3339(text) => Err(TimeFormatError(text))
    case Rfc3339(local, offset) =>
      if ValidOffset(offset) then Ok(Instant(w))
      else Err(TimeFormatError("offset out of range"))
  }

  /** Reading back what was written gives the same naive date-time. */
  lemma RoundTrip(t: Timestamp)
    ensures Deserialize(Serialize(t)) == Ok(t)
  {
  }

  /** Two strings for the same instant, in whatever offsets, read back as the
      same naive UTC date-time, and writing that out reads back to it again. */
  lemma DeserializeNormalises(w1: WireTime, w2: WireTime)
    requires Deserialize(w1).Ok? && Deserialize(w2).Ok?
    ensures Deserialize(w1) == Deserialize(w2) <==> Instant(w1) == Instant(w2)
    ensures Deserialize(Serialize(Deserialize(w1).value)) == Deserialize(w1)
  {
  }

  /** Moving the local time and the offset together leaves the instant alone:
      `12:00+02:00` reads as `10:00` UTC. */
  lemma OffsetIsSubtracted(t: Timestamp, o: Offset)
    requires ValidOffset(o)
    ensures Deserialize(Rfc3339(t + OffsetMicros(o), o)) == Ok(t)
  {
  }
}

/** The record and insert shapes of monitoring-backend/src/models.rs, the row
    type of the `plant_metrics` table (monitoring-backend/src/schema.rs) and the
    decoding of an insert body. */
module Models {
  import opened Wrappers
  import opened DateFormat

  const I32_MIN: int := -0x8000_0000
  const I32_MAX: int := 0x7fff_ffff

  /** Rust's `i32` (Postgres `Int4`). */
  type I32 = x: int | I32_MIN <= x <= I32_MAX

  /** Rust's `f32` (Postgres `Float4`), kept as its bit pattern: the values
      are only carried, never computed on. */
  type Float32 = bv32

  /** `PlantMetricEntity`: a stored row. `id` and `recorded_at` are always
      there; each of the four measurements is independently optional. */
  datatype PlantMetricEntity = PlantMetricEntity(
    id: I32,
    recordedAt: Timestamp,
    temperature: Option<Float32>,
    humidity: Option<Float32>,
    light: Option<I32>,
    soilMoisture: Option<I32>)

  /** `PlantMetricInsert`: all four measurements are required, and there is
      no `id` or `recorded_at`: the store assigns both. */
  datatype PlantMetricInsert = PlantMetricInsert(
    temperature: Float32,
    humidity: Float32,
    light: I32,
    soilMoisture: I32)

  /** A failure reported by the database (`diesel::result::Error`). */
  datatype DbError = DatabaseError(message: string)

  /** The row the store writes for an insert, given the id and time it assigns. */
  function Stored(id: I32, at: Timestamp, m: PlantMetricInsert): (r: PlantMetricEntity)
    ensures r.id == id && r.recordedAt == at
    ensures r.temperature.Some? && r.humidity.Some? && r.light.Some? && r.soilMoisture.Some?
    ensures PlantMetricInsert(r.temperature.value, r.humidity.value, r.light.value, r.soilMoisture.value) == m
  {
    PlantMetricEntity(id, at, Some(m.temperature), Some(m.humidity), Some(m.light), Some(m.soilMoisture))
  }

  // ---------------------------------------------------------------------------
  // Decoding an insert body (`#[derive(Deserialize)]` with `deny_unknown_fields`)
  // ---------------------------------------------------------------------------

  /** A JSON value as the decoder sees it. A number carries its reading as an
      `f32` and, when it is an integer literal, its integer value; parsing the
      number text is the JSON library's business and is not modelled. */
  datatype JsonValue =
    | JsonNumber(asF32: Float32, asInteger: Option<int>)
    | JsonOther

  /** The members of a JSON object, in the order they appear. */
  type JsonObject = seq<(string, JsonValue)>

  datatype BodyError =
    | UnknownField(name: string)
    | DuplicateField(name: string)
    | InvalidValue(name: string)
    | MissingField(name: string)

  const FieldNames: set<string> := {"temperature", "humidity", "light", "soil_moisture"}

  /** Whether the field `name` takes `v`: any number for an `f32` field, an
      integer in range for an `i32` field. */
  predicate Accepts(name: string, v: JsonValue) {
    && v.JsonNumber?
    && (name == "light" || name == "soil_moisture" ==>
          v.asInteger.Some? && I32_MIN <= v.asInteger.value <= I32_MAX)
  }

  predicate AllAccepted(seen: map<string, JsonValue>) {
    forall k :: k in seen ==> Accepts(k, seen[k])
  }

  /** The decoder's pass over the members: an unknown name, a name already
      seen, or a value of the wrong type stops it at that member, and the
      error names that member. */
  function Scan(body: JsonObject, seen: map<string, JsonValue>): (r: Result<map<string, JsonValue>, BodyError>)
    requires AllAccepted(seen)
    ensures r.Ok? ==> AllAccepted(r.value)
    ensures r.Err? ==> !r.error.MissingField?
    ensures r.Err? && r.error.UnknownField? ==>
      r.error.name !in FieldNames && exists i :: 0 <= i < |body| && body[i].0 == r.error.name
    ensures r.Err? && r.error.DuplicateField? ==>
      exists i :: 0 <= i < |body| && body[i].0 == r.error.name &&
        (r.error.name in seen || exists j :: 0 <= j < i && body[j].0 == r.error.name)
    ensures r.Err? && r.error.InvalidValue? ==>
      exists i :: 0 <= i < |body| && body[i].0 == r.error.name && !Accepts(body[i].0, body[i].1)
    decreases |body|
  {
    if body == [] then Ok(seen)
    else
      var (name, v) := body[0];
      if name !in FieldNames then Err(UnknownField(name))
      else if name in seen then Err(DuplicateField(name))
      else if !Accepts(name, v) then Err(InvalidValue(name))
      else
        var r := Scan(body[1..], seen[name := v]);
        assert forall i :: 0 <= i < |body[1..]| ==> body[1..][i] == body[i + 1];
        r
  }

  /** After the pass, the first field missing in declaration order is
      reported; otherwise the insert holds the value recorded for each field. */
  function Build(seen: map<string, JsonValue>): (r: Result<PlantMetricInsert, BodyError>)
    requires AllAccepted(seen)
    ensures r.Ok? <==> FieldNames <= seen.Keys
    ensures r.Err? ==> r.error.MissingField? && r.error.name in FieldNames && r.error.name !in seen
    ensures r.Ok? ==> forall k :: k in FieldNames ==> Carries(r.value, k, seen[k])
  {
    if "temperature" !in seen then Err(MissingField("temperature"))
    else if "humidity" !in seen then Err(MissingField("humidity"))
    else if "light" !in seen then Err(MissingField("light"))
    else if "soil_moisture" !in seen then Err(MissingField("soil_moisture"))
    else
      Ok(PlantMetricInsert(
        seen["temperature"].asF32,
        seen["humidity"].asF32,
        seen["light"].asInteger.value,
        seen["soil_moisture"].asInteger.value))
  }

  /** Decoding a request body into a `PlantMetricInsert`. A rejection names
      the field at fault: a name that is not a field, a field given twice, a
      member whose value has the wrong type, or a measurement the body lacks. */
  function DecodeInsert(body: JsonObject): (r: Result<PlantMetricInsert, BodyError>)
    ensures r.Err? && r.error.UnknownField? ==>
      r.error.name !in FieldNames && exists i :: 0 <= i < |body| && body[i].0 == r.error.name
    ensures r.Err? && r.error.DuplicateField? ==>
      exists i, j :: 0 <= j < i < |body| && body[i].0 == r.error.name && body[j].0 == r.error.name
    ensures r.Err? && r.error.InvalidValue? ==>
      exists i :: 0 <= i < |body| && body[i].0 == r.error.name && !Accepts(body[i].0, body[i].1)
    ensures r.Err? && r.error.MissingField? ==>
      r.error.name in FieldNames && forall i :: 0 <= i < |body| ==> body[i].0 != r.error.name
  {
    ScanSpec(body, map[]);
    match Scan(body, map[])
    case Err(e) => Err(e)
    case Ok(seen) =>
      assert forall i :: 0 <= i < |body| ==> body[i].0 in seen;
      Build(seen)
  }

  predicate KnownFields(body: JsonObject) {
    forall i :: 0 <= i < |body| ==> body[i].0 in FieldNames
  }

  predicate DistinctFields(body: JsonObject) {
    forall i, j :: 0 <= i < j < |body| ==> body[i].0 != body[j].0
  }

  predicate WellTyped(body: JsonObject) {
    forall i :: 0 <= i < |body| ==> Accepts(body[i].0, body[i].1)
  }

  predicate Complete(body: JsonObject) {
    forall name :: name in FieldNames ==> exists i :: 0 <= i < |body| && body[i].0 == name
  }

  /** The insert `m` holds the value `v` that the body gave for field `name`. */
  predicate Carries(m: PlantMetricInsert, name: string, v: JsonValue) {
    && v.JsonNumber?
    && (name == "temperature" ==> m.temperature == v.asF32)
    && (name == "humidity" ==> m.humidity == v.asF32)
    && (name == "light" ==> v.asInteger == Some(m.light as int))
    && (name == "soil_moisture" ==> v.asInteger == Some(m.soilMoisture as int))
  }

  function Names(body: JsonObject): set<string> {
    set i | 0 <= i < |body| :: body[i].0
  }

  /** No member of `body` is named in `names`. */
  predicate NoneNamed(body: JsonObject, names: set<string>) {
    forall i :: 0 <= i < |body| ==> body[i].0 !in names
  }

  /** How each property of a body splits into its first member and the rest. */
  lemma ConsSplits(body: JsonObject, names: set<string>)
    requires body != []
    ensures Names(body) == {body[0].0} + Names(body[1..])
    ensures KnownFields(body) <==> body[0].0 in FieldNames && KnownFields(body[1..])
    ensures WellTyped(body) <==> Accepts(body[0].0, body[0].1) && WellTyped(body[1..])
    ensures DistinctFields(body) <==> DistinctFields(body[1..]) && NoneNamed(body[1..], {body[0].0})
    ensures NoneNamed(body, names) <==> body[0].0 !in names && NoneNamed(body[1..], names)
  {
  }

  lemma {:induction false} ScanSpec(body: JsonObject, seen: map<string, JsonValue>)
    requires AllAccepted(seen)
    ensures Scan(body, seen).Ok? <==>
      KnownFields(body) && DistinctFields(body) && WellTyped(body) && NoneNamed(body, seen.Keys)
    ensures Scan(body, seen).Ok? ==>
      && Scan(body, seen).value.Keys == seen.Keys + Names(body)
      && (forall k :: k in seen ==> Scan(body, seen).value[k] == seen[k])
      && forall i :: 0 <= i < |body| ==> Scan(body, seen).value[body[i].0] == body[i].1
    decreases |body|
  {
    if body != [] {
      var (name, v) := body[0];
      var rest := body[1..];
      ConsSplits(body, seen.Keys);
      if name in FieldNames && name !in seen && Accepts(name, v) {
        var seen' := seen[name := v];
        ScanSpec(rest, seen');
        assert NoneNamed(rest, seen'.Keys) <==> NoneNamed(rest, seen.Keys) && NoneNamed(rest, {name});
        if Scan(body, seen).Ok? {
          var out := Scan(body, seen).value;
          assert out == Scan(rest, seen').value;
          forall i | 0 <= i < |body| ensures out[body[i].0] == body[i].1 {
            if i > 0 { assert body[i] == rest[i - 1]; } else { assert name in seen'; }
          }
        }
      }
    }
  }

  /** A body decodes exactly when it names each of the four measurements once,
      with a value of the right type, and names nothing else. */
  lemma DecodeInsertAccepts(body: JsonObject)
    ensures DecodeInsert(body).Ok? <==>
      KnownFields(body) && DistinctFields(body) && WellTyped(body) && Complete(body)
  {
    ScanSpec(body, map[]);
    if Scan(body, map[]).Ok? {
      var seen := Scan(body, map[]).value;
      assert seen.Keys == Names(body);
      assert Complete(body) <==> FieldNames <= Names(body) by {
        if FieldNames <= Names(body) {
          forall name | name in FieldNames
            ensures exists i :: 0 <= i < |body| && body[i].0 == name
          {
            assert name in Names(body);
          }
        }
        if Complete(body) {
          forall name | name in FieldNames ensures name in Names(body) {
            var i :| 0 <= i < |body| && body[i].0 == name;
          }
        }
      }
    }
  }

  /** What a decoded insert holds is what the body said, field by field. */
  lemma DecodeInsertCarries(body: JsonObject, m: PlantMetricInsert)
    requires DecodeInsert(body) == Ok(m)
    ensures forall i :: 0 <= i < |body| ==> Carries(m, body[i].0, body[i].1)
  {
    ScanSpec(body, map[]);
    var seen := Scan(body, map[]).value;
    forall i | 0 <= i < |body| ensures Carries(m, body[i].0, body[i].1) {
      assert body[i].0 in seen && seen[body[i].0] == body[i].1;
    }
  }

  /** A body with a field besides the four measurements is rejected. */
  lemma UnknownFieldRejected(body: JsonObject, i: int)
    requires 0 <= i < |body| && body[i].0 !in FieldNames
    ensures DecodeInsert(body).Err?
  {
    DecodeInsertAccepts(body);
  }

  /** A body that leaves out one of the four measurements is rejected. */
  lemma MissingFieldRejected(body: JsonObject, name: string)
    requires name in FieldNames
    requires forall i :: 0 <= i < |body| ==> body[i].0 != name
    ensures DecodeInsert(body).Err?
  {
    DecodeInsertAccepts(body);
  }
}
