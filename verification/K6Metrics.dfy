// The metrics a k6 worker reports.
module K6Metrics {
  /** The metrics the controller looks up by name, and all others. */
  datatype Metric =
    | HttpReqs | HttpReqFailed | HttpReqDuration | BusinessDuration | BusinessRequests
    | BusinessSuccess | BusinessFailure | Business2xx | Business4xx | Business5xx | BusinessTransport
    | Status4xx | Status5xx | Iterations | Checks | Vus
    | Named(name: string)

  /** The values of a metric. */
  datatype Key = Count | Rate | Passes | Fails | Value | AvgOf | MedOf | P90Of | P95Of | P99Of | MinOf | MaxOf

  type Metrics = map<Metric, map<Key, real>>

  predicate Has(m: Metrics, metric: Metric, key: Key) {
    metric in m && key in m[metric]
  }

  /** What is missing reads as 0. */
  function Val(m: Metrics, metric: Metric, key: Key): real {
    if Has(m, metric, key) then m[metric][key] else 0.0
  }
}
