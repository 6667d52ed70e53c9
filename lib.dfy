/** Crate-level helpers (src/lib.rs). */
module Lib {
  import opened Metrics

  /** The lower-case word used for a kind in titles. */
  function MetricKindStr(kind: MetricKind): (s: string)
    ensures s == "counter" <==> kind == Counter
    ensures s == "gauge" <==> kind == Gauge
    ensures s == "histogram" <==> kind == Histogram
    ensures forall c :: c in s ==> 'a' <= c <= 'z'
  {
    match kind
    case Counter => "counter"
    case Gauge => "gauge"
    case Histogram => "histogram"
  }

}
