/**
 * One observation, its stored payload and its exported row (src/types.rs, src/storage/fjall_engine.rs,
 * src/storage/parquet_exporter.rs).
 */
module Samples {
  import opened Bytes
  import opened KeyCodec
  import opened Names
  import opened Wrappers

  const I64_MAX: nat := 0x7FFF_FFFF_FFFF_FFFF

  datatype MetricType = Counter | Gauge | Histogram

  /** An `f64`; a finite one is its exact value. */
  datatype Float = Finite(v: real) | NonFinite

  /** `timestamp` is the capture time in nanoseconds after the Unix epoch, negative before it. */
  datatype MetricEntry = MetricEntry(
    timestamp: int, name: Utf8, value: Float, metricType: MetricType, labels: seq<(Utf8, Utf8)>)

  datatype Json =
    | Null
    | Number(n: real)
    | Text(s: Bytestring)
    | List(items: seq<Json>)
    | Object(fields: map<Bytestring, Json>)

  /** A stored value: bytes that parse as JSON, or bytes that do not. */
  datatype Payload = Parsed(json: Json) | Garbage

  /** One row of an export, in column order. */
  datatype Row = Row(ts: nat, name: Utf8, value: real, kind: Bytestring, labels: map<Bytestring, Json>)

  const VALUE := Ascii("value")
  const METRIC_TYPE := Ascii("metric_type")
  const LABELS := Ascii("labels")
  const UNKNOWN := Ascii("unknown")

  /** `entry_micros`: saturates at both ends. */
  function EntryMicros(e: MetricEntry): u64
  {
    if e.timestamp < 0 then 0
    else if e.timestamp / 1000 < U64 then e.timestamp / 1000
    else U64 - 1
  }

  /** Capture order is never reversed, and below a cutoff are exactly the entries captured before it. */
  lemma MicrosKeepTime(a: MetricEntry, b: MetricEntry, cutoff: u64)
    requires cutoff > 0
    ensures a.timestamp <= b.timestamp ==> EntryMicros(a) <= EntryMicros(b)
    ensures EntryMicros(a) < cutoff <==> a.timestamp < 1000 * cutoff
  {}

  function TypeName(t: MetricType): Bytestring
  {
    match t
    case Counter => Ascii("counter")
    case Gauge => Ascii("gauge")
    case Histogram => Ascii("histogram")
  }

  /** Labels collected into a JSON object. */
  function LabelObject(labels: seq<(Utf8, Utf8)>): map<Bytestring, Json>
  {
    if labels == [] then map[]
    else
      var (k, v) := labels[|labels| - 1];
      LabelObject(labels[..|labels| - 1])[k := Text(v)]
  }

  function JsonFloat(x: Float): Json { if x.Finite? then Number(x.v) else Null }

  /** `encode_value`. */
  function EncodeValue(e: MetricEntry): Payload
  {
    Parsed(Object(map[
      VALUE := JsonFloat(e.value),
      METRIC_TYPE := Text(TypeName(e.metricType)),
      LABELS := Object(LabelObject(e.labels))]))
  }

  /** `serde_json::Value::get`. */
  function Get(j: Json, key: Bytestring): Json
  {
    if j.Object? && key in j.fields then j.fields[key] else Null
  }

  /** `decode_value`, with its defaults for everything missing or of another type. */
  function DecodeValue(raw: Payload): (real, Bytestring, map<Bytestring, Json>)
  {
    if raw.Garbage? then (0.0, UNKNOWN, map[])
    else
      var value := Get(raw.json, VALUE);
      var kind := Get(raw.json, METRIC_TYPE);
      var labels := Get(raw.json, LABELS);
      (if value.Number? then value.n else 0.0,
       if kind.Text? then kind.s else UNKNOWN,
       if labels.Object? then labels.fields else map[])
  }

  /** What a pass reads off a stored item: nothing when the key does not decode. */
  function DecodeItem(key: Bytestring, raw: Payload): (r: Option<Row>)
    ensures r.Some? <==> Decodable(key)
  {
    match DecodeKey(key)
    case None => None
    case Some((ts, name)) =>
      var (value, kind, labels) := DecodeValue(raw);
      Some(Row(ts, name, value, kind, labels))
  }

  /** The timestamp column is signed: `i64::try_from(ts).unwrap_or(i64::MAX)`. */
  function ColumnTime(ts: nat): nat { if ts <= I64_MAX then ts else I64_MAX }

  function Exported(row: Row): Row { row.(ts := ColumnTime(row.ts)) }

  function ExportOf(item: Option<Row>): Option<Row>
  {
    match item
    case None => None
    case Some(row) => Some(Exported(row))
  }

  /** The export row of a stored item. */
  function RowOf(key: Bytestring, raw: Payload): (r: Option<Row>)
    ensures r.Some? <==> Decodable(key)
  {
    ExportOf(DecodeItem(key, raw))
  }

  /** The three types are written out as the source spells them, and only so. */
  lemma TypesSpelled(t: MetricType)
    ensures TypeName(t) == Ascii("counter") <==> t == Counter
    ensures TypeName(t) == Ascii("gauge") <==> t == Gauge
    ensures TypeName(t) == Ascii("histogram") <==> t == Histogram
  {
    assert |Ascii("counter")| == 7 && |Ascii("gauge")| == 5 && |Ascii("histogram")| == 9;
  }

  /** Each label key is stored once, with the value of its last occurrence. */
  lemma {:induction false} LastLabelWins(labels: seq<(Utf8, Utf8)>, k: Bytestring)
    ensures k in LabelObject(labels) <==> exists i :: 0 <= i < |labels| && labels[i].0 == k
    ensures forall i :: 0 <= i < |labels| && labels[i].0 == k && (forall j :: i < j < |labels| ==> labels[j].0 != k) ==>
              LabelObject(labels)[k] == Text(labels[i].1)
  {
    if labels == [] {
    } else {
      var n := |labels| - 1;
      LastLabelWins(labels[..n], k);
      assert forall i :: 0 <= i < n ==> labels[..n][i] == labels[i];
      if labels[n].0 != k && k in LabelObject(labels) {
        var i :| 0 <= i < |labels[..n]| && labels[..n][i].0 == k;
        assert labels[i].0 == k;
      }
      if labels[n].0 == k { assert labels[n].0 == k; }
    }
  }

  /** The stored object: three fields of these names, the type as text, the value a number if it is finite. */
  lemma StoredObject(e: MetricEntry) returns (o: map<Bytestring, Json>)
    ensures EncodeValue(e) == Parsed(Object(o)) && o.Keys == {Ascii("value"), Ascii("metric_type"), Ascii("labels")}
    ensures
      && o[Ascii("value")] == (if e.value.Finite? then Number(e.value.v) else Null)
      && (o[Ascii("metric_type")] == Text(Ascii("counter")) <==> e.metricType == Counter)
      && (o[Ascii("metric_type")] == Text(Ascii("gauge")) <==> e.metricType == Gauge)
      && (o[Ascii("metric_type")] == Text(Ascii("histogram")) <==> e.metricType == Histogram)
      && o[Ascii("labels")] == Object(LabelObject(e.labels))
  {
    TypesSpelled(e.metricType);
    FieldNames();
    o := EncodeValue(e).json.fields;
  }

  lemma FieldNames()
    ensures |Ascii("value")| == 5 && |Ascii("metric_type")| == 11 && |Ascii("labels")| == 6 && |Ascii("unknown")| == 7
  {}

  /** The payload is an object that has `j` under `key`. */
  predicate Has(raw: Payload, key: Bytestring, j: Json)
  {
    raw.Parsed? && raw.json.Object? && key in raw.json.fields && raw.json.fields[key] == j
  }

  /** Over all payloads: each field is read on its own, and only a missing or mistyped one takes its default. */
  lemma DecodedFields(raw: Payload)
    ensures var (value, kind, labels) := DecodeValue(raw);
      && (Has(raw, Ascii("value"), Number(value)) || (value == 0.0 && forall n :: !Has(raw, Ascii("value"), Number(n))))
      && (|| Has(raw, Ascii("metric_type"), Text(kind))
          || (kind == Ascii("unknown") && forall s :: !Has(raw, Ascii("metric_type"), Text(s))))
      && (|| Has(raw, Ascii("labels"), Object(labels))
          || (labels == map[] && forall m :: !Has(raw, Ascii("labels"), Object(m))))
  {
    FieldNames();
  }

  /** The payload codec loses only a value that is not finite, which JSON has no number for. */
  lemma ValueRoundTrip(e: MetricEntry)
    ensures DecodeValue(EncodeValue(e)).0 == if e.value.Finite? then e.value.v else 0.0
    ensures DecodeValue(EncodeValue(e)).1 == TypeName(e.metricType)
    ensures DecodeValue(EncodeValue(e)).1 == Ascii("counter") <==> e.metricType == Counter
    ensures DecodeValue(EncodeValue(e)).1 == Ascii("gauge") <==> e.metricType == Gauge
    ensures DecodeValue(EncodeValue(e)).1 == Ascii("histogram") <==> e.metricType == Histogram
    ensures DecodeValue(EncodeValue(e)).2 == LabelObject(e.labels)
  {
    FieldNames();
    TypesSpelled(e.metricType);
  }

  /**
   * The export row of any item whose key decodes: time and name of the key, the time within the signed 64-bit range,
   * and each field of the payload that has its type.
   */
  lemma RowOfItem(key: Bytestring, raw: Payload, ts: u64, name: Utf8) returns (row: Row)
    requires DecodeKey(key) == Some((ts, name))
    ensures RowOf(key, raw) == Some(row)
    ensures row.name == name && row.ts == if ts < 0x8000_0000_0000_0000 then ts else 0x7FFF_FFFF_FFFF_FFFF
    ensures
      && (forall n :: Has(raw, Ascii("value"), Number(n)) ==> row.value == n)
      && (forall s :: Has(raw, Ascii("metric_type"), Text(s)) ==> row.kind == s)
      && (forall m :: Has(raw, Ascii("labels"), Object(m)) ==> row.labels == m)
  {
    DecodedFields(raw);
    row := RowOf(key, raw).value;
  }

  /**
   * What the cold store keeps of an observation written under any sequence number:
   * the name, the type and the labels always; the value exactly when it is finite or zero stands for it;
   * the time up to the signed 64-bit range.
   */
  lemma RowOfStoredEntry(e: MetricEntry, seqNo: u32, key: Bytestring, raw: Payload) returns (row: Row)
    requires key == EncodeKey(EntryMicros(e), seqNo, e.name) && raw == EncodeValue(e)
    ensures RowOf(key, raw) == Some(row)
    ensures row.name == e.name && row.labels == LabelObject(e.labels)
    ensures row.kind == Ascii("counter") <==> e.metricType == Counter
    ensures row.kind == Ascii("gauge") <==> e.metricType == Gauge
    ensures row.kind == Ascii("histogram") <==> e.metricType == Histogram
    ensures row.value == if e.value.Finite? then e.value.v else 0.0
    ensures var ts := EntryMicros(e); row.ts == if ts < 0x8000_0000_0000_0000 then ts else 0x7FFF_FFFF_FFFF_FFFF
  {
    KeyRoundTrip(EntryMicros(e), seqNo, e.name);
    ValueRoundTrip(e);
    row := RowOf(key, raw).value;
  }
}
