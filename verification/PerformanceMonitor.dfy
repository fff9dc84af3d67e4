/** The coordinator: one-shot initialisation that hands the same
    configuration to both detectors, start and stop fanned out in a fixed
    order, the combined status snapshot, and the shared callback. */
module PerformanceMonitor {
  import opened Common
  import opened Config
  import Smooth = SmoothnessMonitor
  import Anr = AnrMonitor

  datatype State = State(
    initialized: bool,
    config: MonitorConfig,
    smoothness: Smooth.State,
    anr: Anr.State)

  /** The detectors, as named in a record of calls. */
  datatype Detector = Smoothness | Watchdog

  /** `start` before `init` throws `IllegalStateException` with this message. */
  datatype StartError = NotInitialized(message: string)

  /** A fanned-out call: the new state and the detectors called, in order. */
  datatype FanOut = FanOut(state: State, calls: seq<Detector>)

  datatype MonitorData = MonitorData(
    status: string,
    smoothnessData: Smooth.SmoothnessData,
    anrData: Anr.AnrData)

  const InitializedStatus := "Initialized"
  const NotInitializedStatus := "Not Initialized"
  const NotInitializedMessage := "PerformanceMonitor not initialized. Call init() first."

  /** The coordinator and both detectors as the process loads them;
      `createdAt` is the watchdog's first clock reading. */
  function Initial(createdAt: int): State {
    State(false, DefaultConfig, Smooth.Initial, Anr.Initial(createdAt))
  }

  /** The coordinator's flag and configuration agree with what both
      detectors hold, and both detectors share one callback. */
  ghost predicate Consistent(s: State) {
    && s.smoothness.initialized == s.initialized
    && s.anr.initialized == s.initialized
    && (s.initialized ==> s.smoothness.config == Some(s.config) && s.anr.config == Some(s.config))
    && s.smoothness.callback == s.anr.callback
  }

  /** `init`: once only; hands the configuration to the smoothness detector
      and then to the watchdog. A second call is ignored. */
  function Init(s: State, c: MonitorConfig): (r: FanOut)
    ensures s.initialized ==> r == FanOut(s, [])
    ensures !s.initialized ==>
      && r.state.initialized && r.state.config == c
      && r.state.smoothness == Smooth.Init(s.smoothness, c)
      && r.state.anr == Anr.Init(s.anr, c)
      && r.calls == [Smoothness, Watchdog]
  {
    if s.initialized then FanOut(s, [])
    else
      FanOut(State(true, c, Smooth.Init(s.smoothness, c), Anr.Init(s.anr, c)), [Smoothness, Watchdog])
  }

  /** `start`: throws before `init`; otherwise starts the smoothness
      detector (reading the nanosecond clock) and then the watchdog
      (reading the uptime clock). */
  function Start(s: State, nowNanos: int, nowMs: int): (r: Result<FanOut, StartError>)
    ensures r.Failure? <==> !s.initialized
    ensures r.Failure? ==> r.error == NotInitialized(NotInitializedMessage)
    ensures r.Success? ==>
      && r.value.calls == [Smoothness, Watchdog]
      && r.value.state.smoothness == Smooth.Start(s.smoothness, nowNanos)
      && r.value.state.anr == Anr.Start(s.anr, nowMs)
      && r.value.state.initialized && r.value.state.config == s.config
  {
    if !s.initialized then Failure(NotInitialized(NotInitializedMessage))
    else
      var smoothness := Smooth.Start(s.smoothness, nowNanos);
      var anr := Anr.Start(s.anr, nowMs);
      Success(FanOut(s.(smoothness := smoothness, anr := anr), [Smoothness, Watchdog]))
  }

  /** `stop`: stops both detectors, smoothness first, whatever the state. */
  function Stop(s: State): (r: FanOut)
    ensures r.calls == [Smoothness, Watchdog]
    ensures !r.state.smoothness.started && !r.state.anr.started
    ensures r.state.smoothness == Smooth.Stop(s.smoothness) && r.state.anr == Anr.Stop(s.anr)
    ensures r.state.initialized == s.initialized && r.state.config == s.config
  {
    FanOut(s.(smoothness := Smooth.Stop(s.smoothness), anr := Anr.Stop(s.anr)), [Smoothness, Watchdog])
  }

  /** `getMonitorData`: the coordinator's status beside both detectors' data. */
  function GetMonitorData(s: State): (d: MonitorData)
    ensures d.status == InitializedStatus <==> s.initialized
    ensures d.status == NotInitializedStatus <==> !s.initialized
    ensures d.smoothnessData == Smooth.GetData(s.smoothness) && d.anrData == Anr.GetData(s.anr)
  {
    MonitorData(if s.initialized then InitializedStatus else NotInitializedStatus,
                Smooth.GetData(s.smoothness), Anr.GetData(s.anr))
  }

  /** `setCallback`: installs the same callback on both detectors. */
  function SetCallback(s: State, cb: Observer): (r: State)
    ensures r.smoothness.callback == Some(cb) && r.anr.callback == Some(cb)
    ensures r.initialized == s.initialized && r.config == s.config
    ensures r.smoothness.(callback := s.smoothness.callback) == s.smoothness
    ensures r.anr.(callback := s.anr.callback) == s.anr
  {
    s.(smoothness := Smooth.SetCallback(s.smoothness, cb), anr := Anr.SetCallback(s.anr, cb))
  }
}
