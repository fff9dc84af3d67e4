/** The monitor configuration record and its defaults. */
module Config {

  datatype SmoothnessConfig = SmoothnessConfig(
    sampleInterval: int,
    lowFrameRateThreshold: int,
    stuckThreshold: int)

  datatype AnrConfig = AnrConfig(
    anrThreshold: int,
    useSigquit: bool)

  datatype MonitorConfig = MonitorConfig(
    smoothnessConfig: SmoothnessConfig,
    anrConfig: AnrConfig,
    debugMode: bool)

  /** `SmoothnessConfig()`: 1000 ms sample interval, 45 fps low-rate
      threshold, 50 ms stuck threshold. */
  const DefaultSmoothnessConfig := SmoothnessConfig(1000, 45, 50)

  /** `ANRConfig()`: the 5000 ms hang threshold, SIGQUIT flag set. */
  const DefaultAnrConfig := AnrConfig(5000, true)

  /** `MonitorConfig()`. */
  const DefaultConfig := MonitorConfig(DefaultSmoothnessConfig, DefaultAnrConfig, false)
}
