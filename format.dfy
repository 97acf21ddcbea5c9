/**
  The format discriminators of msg/format.go: the single leading byte of a
  message. The array (HTTP) group and the data-point (Kafka) group both
  count from zero, so the same byte value names a format only relative to
  the decoder it is handed to.
*/
module Format {

  import opened Numbers

  /** `Format` is a uint8: every discriminator is one byte on the wire. */
  type Format = uint8

  // array formats, for ingestion over HTTP
  const FormatMetricDataV1ArrayJson: Format := 0
  const FormatMetricDataV1ArrayMsgp: Format := 1
  const FormatMetricDataArrayJson: Format := 2
  const FormatMetricDataArrayMsgp: Format := 3

  // data-point formats, for ingestion over Kafka
  const FormatMetricData: Format := 0
  const FormatMetricPoint: Format := 1

  /** A byte the array decoder dispatches on. */
  predicate IsArrayFormat(f: int)
  {
    f == FormatMetricDataV1ArrayJson || f == FormatMetricDataV1ArrayMsgp
    || f == FormatMetricDataArrayJson || f == FormatMetricDataArrayMsgp
  }

  /** A byte the data-point decoder reads as a discriminator. */
  predicate IsDataPointFormat(f: int)
  {
    f == FormatMetricData || f == FormatMetricPoint
  }

  /** The array group is the bytes 0 to 3 and the data-point group the bytes 0 and 1. */
  lemma FormatGroups(f: int)
    ensures IsArrayFormat(f) <==> 0 <= f < 4
    ensures IsDataPointFormat(f) <==> 0 <= f < 2
  {
  }

  /**
    Every data-point discriminator is also an array discriminator, and
    names a legacy array format there.
  */
  lemma FormatGroupsOverlap()
    ensures FormatMetricData == FormatMetricDataV1ArrayJson
    ensures FormatMetricPoint == FormatMetricDataV1ArrayMsgp
  {
  }
}
