/**
  The versioned wire envelope of msg/msg.go. A message is one format byte
  followed by a payload; the payload serialisers (JSON and msgp) are
  library code outside this model and appear as `Codec` values whose
  round trip is a stated hypothesis (`Sound`). Legacy (schema v1) records
  are mapped field by field into the current shape.
*/
module Msg {

  import opened Wrappers
  import opened Numbers
  import opened Format
  import Validation

  /** A payload serialiser: `marshal` may fail, `unmarshal` may reject its input. */
  datatype Codec<!T> = Codec(marshal: T -> Option<seq<uint8>>, unmarshal: seq<uint8> -> Option<T>)

  /** Whatever `marshal` produces, `unmarshal` reads back as the same value. */
  ghost predicate RoundTrips<T(!new)>(c: Codec<T>)
  {
    forall x :: c.marshal(x).Some? ==> c.unmarshal(c.marshal(x).value) == Some(x)
  }

  /** A record of the legacy (v1) wire generation: metadata, one value and a 64-bit time. */
  datatype LegacyMetricData = LegacyMetricData(
    id: string, orgId: int, name: string, interval: int, value: Float64,
    unit: string, time: int, mtype: string, tags: seq<string>)

  /** The metadata part of a current record. */
  datatype MetricMetadata = MetricMetadata(
    id: string, orgId: int, name: string, interval: int, unit: string, mtype: string, tags: seq<string>)

  /** The observation part of a current record: the value and a 32-bit timestamp. */
  datatype Point = Point(val: Float64, ts: uint32)

  /** A current record. */
  datatype MetricData = MetricData(meta: MetricMetadata, point: Point)

  /**
    The values `EncodeDataPoint` is given: a full record, a point-only
    record (whose fields are outside this model, hence the parameter `P`),
    or any other implementation of the interface.
  */
  datatype DataPoint<P> = AsMetricData(data: MetricData) | AsMetricPoint(point: P) | OtherDataPoint

  datatype MsgError =
    | TooSmall
    | UnknownFormat(format: uint8)
    | MarshalFailed
    | UnmarshalFailed
    | UnknownDataPointType

  /** What a call does: returns a value, or panics on an index out of range. */
  datatype Outcome<T> = Returned(value: T) | IndexOutOfRange

  /** The serialisers each format uses. */
  datatype Codecs<!P> = Codecs(
    arrayJson: Codec<seq<MetricData>>,
    arrayMsgp: Codec<seq<MetricData>>,
    v1ArrayJson: Codec<seq<LegacyMetricData>>,
    v1ArrayMsgp: Codec<seq<LegacyMetricData>>,
    metricData: Codec<MetricData>,
    metricPoint: Codec<P>,
    legacyMetricData: Codec<LegacyMetricData>)

  ghost predicate Sound<P(!new)>(c: Codecs<P>)
  {
    && RoundTrips(c.arrayJson) && RoundTrips(c.arrayMsgp)
    && RoundTrips(c.v1ArrayJson) && RoundTrips(c.v1ArrayMsgp)
    && RoundTrips(c.metricData) && RoundTrips(c.metricPoint) && RoundTrips(c.legacyMetricData)
  }

  /**
    The v1 to current field mapping: id, org, name, unit, mtype, tags and
    value are copied, the time is cut to its low 32 bits, and the interval
    is not copied, so it keeps its zero value.
  */
  function FromLegacy(om: LegacyMetricData): (m: MetricData)
    ensures m.meta.id == om.id && m.meta.orgId == om.orgId && m.meta.name == om.name
    ensures m.meta.interval == 0
    ensures m.meta.unit == om.unit && m.meta.mtype == om.mtype && m.meta.tags == om.tags
    ensures m.point.val == om.value
    ensures (om.time - m.point.ts) % TwoTo32 == 0
    ensures 0 <= om.time < TwoTo32 ==> m.point.ts == om.time
  {
    MetricData(MetricMetadata(om.id, om.orgId, om.name, 0, om.unit, om.mtype, om.tags),
               Point(om.value, ToUint32(om.time)))
  }

  /** The interval plays no part in the mapping, and times equal modulo 2^32 map alike. */
  lemma FromLegacyForgets(a: LegacyMetricData, b: LegacyMetricData)
    requires a.(interval := b.interval, time := b.time) == b
    requires (a.time - b.time) % TwoTo32 == 0
    ensures FromLegacy(a) == FromLegacy(b)
  {
    var ta, tb := FromLegacy(a).point.ts, FromLegacy(b).point.ts;
    assert (ta - tb) % TwoTo32 == 0 by {
      assert ta - tb == (a.time - b.time) - (a.time - ta) + (b.time - tb);
    }
    assert -TwoTo32 < ta - tb < TwoTo32;
  }

  /**
    Because the interval is lost, a mapped legacy record with a non-zero
    org fails record validation with the zero-interval error, whatever its
    interval was.
  */
  lemma LegacyRecordFailsValidation(om: LegacyMetricData)
    requires om.orgId != 0
    ensures var m := FromLegacy(om).meta;
      Validation.ValidateRecord(m.orgId, m.interval, m.name, m.mtype, m.tags) == Some(Validation.InvalidIntervalZero)
  {
  }

  /** Each legacy record mapped, in order. */
  function MapLegacy(olds: seq<LegacyMetricData>): (ms: seq<MetricData>)
    ensures |ms| == |olds|
  {
    seq(|olds|, i requires 0 <= i < |olds| => FromLegacy(olds[i]))
  }

  /**
    The loop of the v1 branches: `metrics[i]` gets the mapped `olds[i]`,
    in order. Storing past the end of `metrics` panics, so the loop runs
    through exactly when `metrics` has room for every record.
  */
  method FillFromLegacy(metrics: array<MetricData>, olds: seq<LegacyMetricData>) returns (inRange: bool)
    modifies metrics
    ensures inRange <==> |olds| <= metrics.Length
    ensures inRange ==> metrics[..|olds|] == MapLegacy(olds)
  {
    var i := 0;
    while i < |olds|
      invariant 0 <= i <= |olds| && i <= metrics.Length
      invariant forall k | 0 <= k < i :: metrics[k] == FromLegacy(olds[k])
    {
      if i >= metrics.Length {
        return false;
      }
      metrics[i] := FromLegacy(olds[i]);
      i := i + 1;
    }
    return true;
  }

  /** The serialiser an array format selects, if the format is a current one. */
  function ArrayCodec<P>(version: uint8, c: Codecs<P>): Option<Codec<seq<MetricData>>>
  {
    if version == FormatMetricDataArrayJson then Some(c.arrayJson)
    else if version == FormatMetricDataArrayMsgp then Some(c.arrayMsgp)
    else None
  }

  /** The message `EncodeMetricDataArray` builds: the version byte, then the payload. */
  function EncodedArray<P>(metrics: seq<MetricData>, version: uint8, c: Codecs<P>)
    : (r: Result<seq<uint8>, MsgError>)
    ensures r.Ok? <==> ArrayCodec(version, c).Some? && ArrayCodec(version, c).value.marshal(metrics).Some?
    ensures r.Ok? ==> r.value == [version] + ArrayCodec(version, c).value.marshal(metrics).value
  {
    match ArrayCodec(version, c)
    case None => Err(UnknownFormat(version))
    case Some(codec) =>
      match codec.marshal(metrics)
      case None => Err(MarshalFailed)
      case Some(payload) => Ok([version] + payload)
  }

  /** Only the two current array formats encode; the legacy ones and every other byte are refused. */
  lemma EncodeArrayFormats<P>(metrics: seq<MetricData>, version: uint8, c: Codecs<P>)
    ensures version != FormatMetricDataArrayJson && version != FormatMetricDataArrayMsgp
            ==> EncodedArray(metrics, version, c) == Err(UnknownFormat(version))
    ensures EncodedArray(metrics, version, c).Ok? ==> EncodedArray(metrics, version, c).value[0] == version
  {
  }

  /** Writes the version byte into a buffer, then the payload the version's serialiser produces. */
  method EncodeMetricDataArray<P>(metrics: seq<MetricData>, version: uint8, c: Codecs<P>)
    returns (r: Result<seq<uint8>, MsgError>)
    ensures r == EncodedArray(metrics, version, c)
  {
    var buf := [version];
    var msg: Option<seq<uint8>>;
    if version == FormatMetricDataArrayJson {
      msg := c.arrayJson.marshal(metrics);
    } else if version == FormatMetricDataArrayMsgp {
      msg := c.arrayMsgp.marshal(metrics);
    } else {
      return Err(UnknownFormat(version));
    }
    if msg.None? {
      return Err(MarshalFailed);
    }
    buf := buf + msg.value;
    return Ok(buf);
  }

  /** The serialiser a legacy array format selects. */
  function LegacyArrayCodec<P>(format: uint8, c: Codecs<P>): Codec<seq<LegacyMetricData>>
    requires format == FormatMetricDataV1ArrayJson || format == FormatMetricDataV1ArrayMsgp
  {
    if format == FormatMetricDataV1ArrayJson then c.v1ArrayJson else c.v1ArrayMsgp
  }

  /**
    What decoding an array message means: an empty buffer is too small; a
    current format reads its payload from byte 1; a legacy format needs 9
    bytes, skips the 8-byte legacy id and maps the records it reads; any
    other byte is an unknown format. Both legacy formats map every record
    (the msgp branch as written does not; see `DecodeMetricDataArray`).
  */
  function DecodedArray<P>(b: seq<uint8>, c: Codecs<P>): (r: Result<seq<MetricData>, MsgError>)
    ensures r.Ok? ==> |b| >= 1 && IsArrayFormat(b[0])
    ensures r.Ok? && !ArrayCodec(b[0], c).Some? ==> |b| >= 9
  {
    if |b| < 1 then Err(TooSmall)
    else
      var format := b[0];
      match ArrayCodec(format, c)
      case Some(codec) =>
        (match codec.unmarshal(b[1..])
         case None => Err(UnmarshalFailed)
         case Some(metrics) => Ok(metrics))
      case None =>
        if format == FormatMetricDataV1ArrayJson || format == FormatMetricDataV1ArrayMsgp then
          if |b| < 9 then Err(TooSmall)
          else
            match LegacyArrayCodec(format, c).unmarshal(b[9..])
            case None => Err(UnmarshalFailed)
            case Some(olds) => Ok(MapLegacy(olds))
        else Err(UnknownFormat(format))
  }

  /** Decoding what `EncodedArray` wrote gives back the records. */
  lemma ArrayRoundTrip<P(!new)>(metrics: seq<MetricData>, version: uint8, c: Codecs<P>)
    requires Sound(c)
    requires EncodedArray(metrics, version, c).Ok?
    ensures DecodedArray(EncodedArray(metrics, version, c).value, c) == Ok(metrics)
  {
    var codec := ArrayCodec(version, c).value;
    var payload := codec.marshal(metrics).value;
    var b := [version] + payload;
    assert b[0] == version && b[1..] == payload;
    assert RoundTrips(codec);
  }

  /**
    A legacy array message is read from byte 9 on: whatever the 8 bytes of
    the legacy id, a sound serialiser's output decodes to the mapped records.
  */
  lemma LegacyArrayDecodes<P(!new)>(format: uint8, id: seq<uint8>, olds: seq<LegacyMetricData>, c: Codecs<P>)
    requires Sound(c)
    requires format == FormatMetricDataV1ArrayJson || format == FormatMetricDataV1ArrayMsgp
    requires |id| == 8
    requires LegacyArrayCodec(format, c).marshal(olds).Some?
    ensures DecodedArray([format] + id + LegacyArrayCodec(format, c).marshal(olds).value, c)
            == Ok(MapLegacy(olds))
  {
    var codec := LegacyArrayCodec(format, c);
    var payload := codec.marshal(olds).value;
    var b := [format] + id + payload;
    assert b[0] == format && b[9..] == payload;
    assert RoundTrips(codec);
  }

  /** A legacy message shorter than 9 bytes is too small, and so is the empty buffer. */
  lemma ArrayTooSmall<P>(b: seq<uint8>, c: Codecs<P>)
    ensures DecodedArray(b, c) == Err(TooSmall) <==>
      |b| == 0 || (|b| < 9 && (b[0] == FormatMetricDataV1ArrayJson || b[0] == FormatMetricDataV1ArrayMsgp))
  {
  }

  /** The v1-msgp branch reads a non-empty legacy array, which it then stores into an empty slice. */
  predicate LegacyMsgpOverflows<P>(b: seq<uint8>, c: Codecs<P>)
  {
    && |b| >= 9 && b[0] == FormatMetricDataV1ArrayMsgp
    && c.v1ArrayMsgp.unmarshal(b[9..]).Some? && |c.v1ArrayMsgp.unmarshal(b[9..]).value| > 0
  }

  /**
    `DecodeMetricDataArray` as written: the JSON legacy branch sizes the
    result for the records it read, but the msgp legacy branch stores them
    into the empty slice made at the start, which panics for any non-empty
    legacy array. Everywhere else it returns what `DecodedArray` says.
  */
  method DecodeMetricDataArray<P>(b: seq<uint8>, c: Codecs<P>)
    returns (r: Outcome<Result<seq<MetricData>, MsgError>>)
    ensures r == IndexOutOfRange <==> LegacyMsgpOverflows(b, c)
    ensures r != IndexOutOfRange ==> r == Returned(DecodedArray(b, c))
  {
    if |b| < 1 {
      return Returned(Err(TooSmall));
    }
    var metrics := new MetricData[0];
    var format := b[0];
    if format == FormatMetricDataArrayJson || format == FormatMetricDataArrayMsgp {
      var codec := if format == FormatMetricDataArrayJson then c.arrayJson else c.arrayMsgp;
      var out := codec.unmarshal(b[1..]);
      if out.None? {
        return Returned(Err(UnmarshalFailed));
      }
      return Returned(Ok(out.value));
    } else if format == FormatMetricDataV1ArrayJson || format == FormatMetricDataV1ArrayMsgp {
      if |b| < 9 {
        return Returned(Err(TooSmall));
      }
      var codec := if format == FormatMetricDataV1ArrayJson then c.v1ArrayJson else c.v1ArrayMsgp;
      var oldMetrics := codec.unmarshal(b[9..]);
      if oldMetrics.None? {
        return Returned(Err(UnmarshalFailed));
      }
      if format == FormatMetricDataV1ArrayJson {
        metrics := new MetricData[|oldMetrics.value|];
      }
      assert metrics.Length == |oldMetrics.value| || metrics.Length == 0;
      var inRange := FillFromLegacy(metrics, oldMetrics.value);
      if !inRange {
        return IndexOutOfRange;
      }
      assert metrics[..] == metrics[..|oldMetrics.value|];
      return Returned(Ok(metrics[..]));
    } else {
      return Returned(Err(UnknownFormat(format)));
    }
  }

  /** A v1-msgp message holding one legacy record panics as written, and decodes once corrected. */
  lemma LegacyMsgpPanics<P(!new)>(id: seq<uint8>, om: LegacyMetricData, c: Codecs<P>)
    requires Sound(c)
    requires |id| == 8
    requires c.v1ArrayMsgp.marshal([om]).Some?
    ensures var b := [FormatMetricDataV1ArrayMsgp] + id + c.v1ArrayMsgp.marshal([om]).value;
      && LegacyMsgpOverflows(b, c)
      && DecodedArray(b, c) == Ok([FromLegacy(om)])
  {
    var payload := c.v1ArrayMsgp.marshal([om]).value;
    var b := [FormatMetricDataV1ArrayMsgp] + id + payload;
    assert b[0] == FormatMetricDataV1ArrayMsgp && b[9..] == payload;
    assert RoundTrips(c.v1ArrayMsgp);
    assert c.v1ArrayMsgp.unmarshal(payload) == Some([om]);
    LegacyArrayDecodes(FormatMetricDataV1ArrayMsgp, id, [om], c);
    assert MapLegacy([om]) == [FromLegacy(om)];
  }

  /** The discriminator a data point is written with. */
  function DataPointCodec<P>(p: DataPoint<P>, c: Codecs<P>): Option<(uint8, Option<seq<uint8>>)>
  {
    match p
    case AsMetricData(m) => Some((FormatMetricData, c.metricData.marshal(m)))
    case AsMetricPoint(x) => Some((FormatMetricPoint, c.metricPoint.marshal(x)))
    case OtherDataPoint => None
  }

  /**
    The message `EncodeDataPoint` appends to `b`: the discriminator of the
    point's type, then its payload.
  */
  function EncodedDataPoint<P>(p: DataPoint<P>, b: seq<uint8>, c: Codecs<P>): (r: Result<seq<uint8>, MsgError>)
    ensures p.OtherDataPoint? ==> r == Err(UnknownDataPointType)
    ensures r.Ok? ==> |r.value| > |b| && r.value[..|b|] == b
    ensures r.Ok? ==> r.value[|b|] == if p.AsMetricData? then FormatMetricData else FormatMetricPoint
  {
    match DataPointCodec(p, c)
    case None => Err(UnknownDataPointType)
    case Some((format, msg)) =>
      match msg
      case None => Err(MarshalFailed)
      case Some(payload) => Ok(b + [format] + payload)
  }

  /** Writing after existing bytes leaves them in front and appends the same message. */
  lemma EncodeDataPointAppends<P>(p: DataPoint<P>, b: seq<uint8>, c: Codecs<P>)
    ensures EncodedDataPoint(p, b, c).Ok? <==> EncodedDataPoint(p, [], c).Ok?
    ensures EncodedDataPoint(p, b, c).Ok? ==>
      EncodedDataPoint(p, b, c).value == b + EncodedDataPoint(p, [], c).value
  {
    match DataPointCodec(p, c)
    case None =>
    case Some((format, msg)) =>
      if msg.Some? {
        assert b + [format] + msg.value == b + ([] + [format] + msg.value);
      }
  }

  /** Appends the discriminator to the buffer, then the payload. */
  method EncodeDataPoint<P>(p: DataPoint<P>, b: seq<uint8>, c: Codecs<P>) returns (r: Result<seq<uint8>, MsgError>)
    ensures r == EncodedDataPoint(p, b, c)
  {
    var buf := b;
    match p {
      case AsMetricData(m) =>
        buf := buf + [FormatMetricData];
        var msg := c.metricData.marshal(m);
        if msg.None? {
          return Err(MarshalFailed);
        }
        buf := buf + msg.value;
      case AsMetricPoint(x) =>
        buf := buf + [FormatMetricPoint];
        var msg := c.metricPoint.marshal(x);
        if msg.None? {
          return Err(MarshalFailed);
        }
        buf := buf + msg.value;
      case OtherDataPoint =>
        return Err(UnknownDataPointType);
    }
    return Ok(buf);
  }

  /**
    The dispatch on the first byte: a point, a full record, or otherwise the
    whole buffer, first byte included, read as a legacy record.
  */
  function DispatchDataPoint<P>(b: seq<uint8>, c: Codecs<P>): (r: Result<DataPoint<P>, MsgError>)
    requires |b| >= 1
    ensures r.Ok? ==> !r.value.OtherDataPoint?
    ensures r.Ok? ==> (r.value.AsMetricPoint? <==> b[0] == FormatMetricPoint)
    ensures r.Ok? && b[0] == FormatMetricData ==> c.metricData.unmarshal(b[1..]) == Some(r.value.data)
    ensures r.Err? ==> r.error == UnmarshalFailed
  {
    if b[0] == FormatMetricPoint then
      match c.metricPoint.unmarshal(b[1..])
      case None => Err(UnmarshalFailed)
      case Some(x) => Ok(AsMetricPoint(x))
    else if b[0] == FormatMetricData then
      match c.metricData.unmarshal(b[1..])
      case None => Err(UnmarshalFailed)
      case Some(m) => Ok(AsMetricData(m))
    else
      match c.legacyMetricData.unmarshal(b)
      case None => Err(UnmarshalFailed)
      case Some(om) => Ok(AsMetricData(FromLegacy(om)))
  }

  /**
    What decoding a data point means: the dispatch of `DispatchDataPoint`,
    with an empty buffer refused as too small (as the array decoder does).
  */
  function DecodedDataPoint<P>(b: seq<uint8>, c: Codecs<P>): (r: Result<DataPoint<P>, MsgError>)
    ensures r.Ok? ==> !r.value.OtherDataPoint?
    ensures b == [] <==> r == Err(TooSmall)
  {
    if |b| == 0 then Err(TooSmall) else DispatchDataPoint(b, c)
  }

  /**
    `DecodeDataPoint` as written: it reads `b[0]` without a length check,
    which panics on an empty buffer; otherwise it agrees with `DecodedDataPoint`.
  */
  function DecodeDataPoint<P>(b: seq<uint8>, c: Codecs<P>): (r: Outcome<Result<DataPoint<P>, MsgError>>)
    ensures r == IndexOutOfRange <==> b == []
    ensures b != [] ==> r == Returned(DecodedDataPoint(b, c))
  {
    if |b| == 0 then IndexOutOfRange else Returned(DispatchDataPoint(b, c))
  }

  /** A point or record written with `EncodedDataPoint` on an empty buffer decodes back to itself. */
  lemma DataPointRoundTrip<P(!new)>(p: DataPoint<P>, c: Codecs<P>)
    requires Sound(c)
    requires EncodedDataPoint(p, [], c).Ok?
    ensures DecodedDataPoint(EncodedDataPoint(p, [], c).value, c) == Ok(p)
  {
    var b := EncodedDataPoint(p, [], c).value;
    match p
    case AsMetricData(m) =>
      assert b == [FormatMetricData] + c.metricData.marshal(m).value;
      assert b[1..] == c.metricData.marshal(m).value;
      assert RoundTrips(c.metricData);
    case AsMetricPoint(x) =>
      assert b == [FormatMetricPoint] + c.metricPoint.marshal(x).value;
      assert b[1..] == c.metricPoint.marshal(x).value;
      assert RoundTrips(c.metricPoint);
  }

  /**
    A legacy record whose serialised form does not start with 0 or 1 is
    recognised by the fallback and decodes to its mapping.
  */
  lemma LegacyDataPointFallback<P(!new)>(om: LegacyMetricData, c: Codecs<P>)
    requires Sound(c)
    requires c.legacyMetricData.marshal(om).Some?
    ensures var b := c.legacyMetricData.marshal(om).value;
      b != [] && !IsDataPointFormat(b[0]) ==> DecodedDataPoint(b, c) == Ok(AsMetricData(FromLegacy(om)))
  {
    assert RoundTrips(c.legacyMetricData);
  }
}
