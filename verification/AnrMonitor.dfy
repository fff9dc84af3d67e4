/** The hang watchdog: a periodic two-phase liveness check over explicit
    timestamps, and the report it builds once a hang is confirmed.

    A check reads the monotonic clock at `now`; when the last response is
    older than the threshold it posts a ping to the primary context, waits a
    grace period and reads the clock again at `after`. Whether the ping ran
    during the grace period, and when, is the input `pingAt`; a ping that did
    not run stays queued (`Ping` applies it later). */
module AnrMonitor {
  import opened Common
  import opened Config
  import AnrReason
  import opened AnrReport

  /** Threshold used while no configuration is installed. */
  const FallbackAnrThreshold := 5000
  /** The tag `checkANR` passes to the report. */
  const WatchdogTag := "Watchdog detected"

  datatype State = State(
    initialized: bool,
    started: bool,
    config: Option<MonitorConfig>,
    callback: Option<Observer>,
    lastResponseTime: int,
    checking: bool)

  datatype AnrData = AnrData(isMonitoring: bool, useSigquit: bool, threshold: int)

  /** A check's outcome: the new state, whether a ping was posted, and the
      notification posted for a confirmed hang, if any. */
  datatype CheckStep = CheckStep(state: State, pinged: bool, event: Option<Event>)

  /** The watchdog as the process loads it; `createdAt` is the clock reading
      taken when the response time is first set. */
  function Initial(createdAt: int): State {
    State(false, false, None, None, createdAt, false)
  }

  function Threshold(s: State): int {
    match s.config
    case Some(c) => c.anrConfig.anrThreshold
    case None => FallbackAnrThreshold
  }

  // ---------------------------------------------------------------- lifecycle

  /** `init`: installs the configuration once; later calls change nothing. */
  function Init(s: State, c: MonitorConfig): (r: State)
    ensures s.initialized ==> r == s
    ensures r.initialized && r.config == (if s.initialized then s.config else Some(c))
    ensures r.(initialized := s.initialized, config := s.config) == s
  {
    if s.initialized then s else s.(initialized := true, config := Some(c))
  }

  /** `start`: acts only once initialized and while stopped, and counts the
      primary context as having just responded. */
  function Start(s: State, now: int): (r: State)
    ensures !s.initialized || s.started ==> r == s
    ensures s.initialized && !s.started ==> r.started && r.lastResponseTime == now
    ensures r.(started := s.started, lastResponseTime := s.lastResponseTime) == s
  {
    if !s.initialized || s.started then s
    else s.(started := true, lastResponseTime := now)
  }

  /** `stop`: acts only while started. */
  function Stop(s: State): (r: State)
    ensures !r.started
    ensures r.(started := s.started) == s
  {
    if !s.started then s else s.(started := false)
  }

  function SetCallback(s: State, cb: Observer): (r: State)
    ensures r.callback == Some(cb)
    ensures r.(callback := s.callback) == s
  {
    s.(callback := Some(cb))
  }

  /** `getData`: SIGQUIT capture is never in use, whatever the configuration says. */
  function GetData(s: State): (d: AnrData)
    ensures d.isMonitoring == s.started
    ensures !d.useSigquit
    ensures s.config.Some? ==> d.threshold == s.config.value.anrConfig.anrThreshold
    ensures s.config.None? ==> d.threshold == DefaultAnrConfig.anrThreshold
  {
    AnrData(s.started, false, Threshold(s))
  }

  // ---------------------------------------------------------------- checking

  /** The ping, run on the primary context: it records that the primary
      context responded at `at`, and does nothing else. */
  function Ping(s: State, at: int): (r: State)
    ensures r.lastResponseTime == at
    ensures r.(lastResponseTime := s.lastResponseTime) == s
  {
    s.(lastResponseTime := at)
  }

  /** `onANRDetected`: while started, the notification for a hang of `delay`
      ms, carrying the primary stack and the report. */
  function OnAnrDetected(s: State, delay: int, detectedBy: string, capture: Capture): (e: Option<Event>)
    ensures e.Some? <==> s.started
    ensures e.Some? ==>
      && e.value.AnrDetected? && e.value.delayMs == delay
      && e.value.stackTrace == StackText(capture.mainFrames)
      && e.value.logLine == Report(detectedBy, delay, capture.pid, AnrReason.Classify(e.value.stackTrace),
                                   e.value.stackTrace, AllThreadsText(capture.threads))
  {
    if !s.started then None
    else
      var stackTrace := StackText(capture.mainFrames);
      var reason := AnrReason.Classify(stackTrace);
      var logLine := Report(detectedBy, delay, capture.pid, reason, stackTrace, AllThreadsText(capture.threads));
      Some(AnrDetected(delay, stackTrace, logLine))
  }

  /** `checkANR`: dropped when stopped or while another check runs. Otherwise
      a response no older than the threshold ends the check quietly; an
      older one sends a ping, and the hang is reported only if, after the
      grace period, the last response is still older than the threshold. */
  function CheckAnr(s: State, now: int, pingAt: Option<int>, after: int, capture: Capture): (r: CheckStep)
    ensures !s.started || s.checking ==> r == CheckStep(s, false, None)
    ensures s.started && !s.checking ==>
      && !r.state.checking
      && (r.pinged <==> now - s.lastResponseTime > Threshold(s))
      && (!r.pinged ==> r.state == s && r.event == None)
      && (r.pinged ==> r.state == (if pingAt.Some? then Ping(s, pingAt.value) else s))
      && (r.event.Some? <==> r.pinged && after - r.state.lastResponseTime > Threshold(s))
      && (r.event.Some? ==>
            && r.event.value.AnrDetected?
            && r.event.value.delayMs == after - r.state.lastResponseTime
            && r.event.value.delayMs > Threshold(s)
            && r.event == OnAnrDetected(r.state, r.event.value.delayMs, WatchdogTag, capture))
  {
    if !s.started || s.checking then CheckStep(s, false, None)
    else
      var busy := s.(checking := true);
      var threshold := Threshold(busy);
      var elapsed := now - busy.lastResponseTime;
      if elapsed > threshold then
        var answered := if pingAt.Some? then Ping(busy, pingAt.value) else busy;
        var newElapsed := after - answered.lastResponseTime;
        var event := if newElapsed > threshold then OnAnrDetected(answered, newElapsed, WatchdogTag, capture) else None;
        CheckStep(answered.(checking := false), true, event)
      else
        CheckStep(busy.(checking := false), false, None)
  }
}
