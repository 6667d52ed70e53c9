/**
 * The types the dashboard borrows from the `metrics` and `metrics_util`
 * crates: a metric key (name plus label set), the metric kind and the unit
 * attached to a description. Only their identity matters to the model.
 */
module Metrics {

  /** One `key=value` label of a metric. */
  datatype Label = Label(key: string, value: string)

  /** `metrics::Key`: a name and an ordered label set; both are identity. */
  datatype Key = Key(name: string, labels: seq<Label>)

  /** `metrics_util::MetricKind`. */
  datatype MetricKind = Counter | Gauge | Histogram

  /** `metrics::Unit`. */
  datatype Unit =
    | Count | Percent
    | Seconds | Milliseconds | Microseconds | Nanoseconds
    | Tebibytes | Gigibytes | Mebibytes | Kibibytes | Bytes
    | TerabitsPerSecond | GigabitsPerSecond | MegabitsPerSecond | KilobitsPerSecond | BitsPerSecond
    | CountPerSecond

}
