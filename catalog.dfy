/**
 * The fixed, ordered metric catalog. A record's i-th value belongs to the
 * i-th name; the order is the only join key between a telemetry row and a
 * named metric.
 */
module Catalog {

  const METRIC_NAMES: seq<string> :=
    ["SMACT", "SMOCC", "TENSO", "FP64A", "FP32A", "FP16A", "DRAMA", "PCITX", "PCIRX", "NVLTX", "NVLRX"]

  /** Number of tracked metrics (the length of every record and of the history table). */
  const NUM_METRICS: nat := 11

  /** The byte-rate metrics: their statistics are shown as bytes per second. */
  predicate IsByteRateMetric(name: string) {
    name == "PCITX" || name == "PCIRX" || name == "NVLTX" || name == "NVLRX"
  }

  /** The catalog has NUM_METRICS distinct names, and exactly its last four are byte rates. */
  lemma CatalogShape()
    ensures |METRIC_NAMES| == NUM_METRICS
    ensures forall i, j :: 0 <= i < j < |METRIC_NAMES| ==> METRIC_NAMES[i] != METRIC_NAMES[j]
    ensures forall i :: 0 <= i < |METRIC_NAMES| ==> (IsByteRateMetric(METRIC_NAMES[i]) <==> 7 <= i)
  {
  }
}
