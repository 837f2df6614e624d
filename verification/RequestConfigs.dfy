/** The per-request settings (config.RequestConfig) that the readiness loop, the rendering
    options and the URL overrides all share. Durations are integers in nanoseconds; scale
    factors are reals. */
module RequestConfigs {

  datatype RequestConfig = RequestConfig(
    timeBetweenScrolls: int,
    minWidth: int,
    minHeight: int,
    maxWidth: int,
    maxHeight: int,
    pageScaleFactor: real,
    maxPageScaleFactor: real,
    landscape: bool,
    readinessTimeout: int,
    readinessIterationInterval: int,
    readinessWaitForNQueryCycles: int,
    readinessPriorWait: int,
    readinessDisableQueryWait: bool,
    readinessFirstQueryTimeout: int,
    readinessQueriesTimeout: int,
    readinessDisableNetworkWait: bool,
    readinessNetworkIdleTimeout: int,
    readinessDisableDOMHashCodeWait: bool,
    readinessDOMHashCodeTimeout: int,
    forcePollingMode: bool
  )

  /** Go's zero value. */
  const ZERO := RequestConfig(0, 0, 0, 0, 0, 0.0, 0.0, false, 0, 0, 0, 0, false, 0, 0, false, 0, false, 0, false)
}
