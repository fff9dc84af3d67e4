/** The frame smoothness detector: per-frame interval sampling, the bounded
    sample window, the once-per-second frame-rate estimate and the
    stuck-frame accumulator, as pure transitions over an explicit state.

    Clocks are parameters: `frameTimeNanos` is the frame clock's timestamp,
    `elapsedMs` the monotonic clock and `wallMs` the wall clock read in the
    same frame. Work posted to the worker queue is returned as a list of
    `FrameTask`s, notifications posted to the primary context as `Event`s.
    The worker handler exists exactly while the detector is started (it is
    created by `start` and dropped by `stop`), so a post through it happens
    only while started. */
module SmoothnessMonitor {
  import opened Common
  import opened Config

  /** At most one second of frames at 60 fps is kept. */
  const WindowCapacity := 60
  /** The rate ceiling and the optimistic rate used when no mean is usable. */
  const MaxFrameRate := 60
  const MillisPerSecond := 1000
  const NanosPerMilli := 1_000_000
  /** Slow frames needed before a stuck event fires. */
  const StuckRunLength := 3
  /** Accumulated slow frames shorter than this are dropped after every check. */
  const StuckPruneBelow := 100
  /** Thresholds used while no configuration is installed. */
  const FallbackLowFrameRateThreshold := 45
  const FallbackStuckThreshold := 50

  datatype State = State(
    initialized: bool,
    started: bool,
    config: Option<MonitorConfig>,
    callback: Option<Observer>,
    // frame-rate estimate
    frameTimes: seq<int>,
    lastFrameTimeNanos: int,
    frameCount: int,
    currentFrameRate: int,
    // stuck detection
    lastFrameTimeMs: int,
    stuckFrames: seq<int>,
    stuckDetecting: bool)

  /** Work `onFrame` posts to the worker queue. */
  datatype FrameTask =
    | ProcessFrame(intervalMs: int, timestamp: int)
    | CheckStuck(durationMs: int, currentTime: int)

  datatype FrameStep = FrameStep(state: State, tasks: seq<FrameTask>)

  /** A worker-side transition and the notifications it posts. */
  datatype Step = Step(state: State, events: seq<Event>)

  datatype SmoothnessData = SmoothnessData(isMonitoring: bool, frameRate: int, isNormal: bool)

  /** The detector as the process loads it. */
  const Initial := State(false, false, None, None, [], 0, 0, MaxFrameRate, 0, [], false)

  /** What every reachable state satisfies. */
  ghost predicate Valid(s: State) {
    && |s.frameTimes| <= WindowCapacity
    && 0 <= s.currentFrameRate <= MaxFrameRate
    && StuckSettled(s.stuckFrames)
    && !s.stuckDetecting
  }

  /** The accumulator between two checks: fewer slow frames than a run, none short. */
  predicate StuckSettled(acc: seq<int>) {
    |acc| < StuckRunLength && forall i | 0 <= i < |acc| :: acc[i] >= StuckPruneBelow
  }

  function LowFrameRateThreshold(s: State): int {
    match s.config
    case Some(c) => c.smoothnessConfig.lowFrameRateThreshold
    case None => FallbackLowFrameRateThreshold
  }

  function StuckThreshold(s: State): int {
    match s.config
    case Some(c) => c.smoothnessConfig.stuckThreshold
    case None => FallbackStuckThreshold
  }

  // ---------------------------------------------------------------- lifecycle

  /** `init`: installs the configuration once; later calls change nothing. */
  function Init(s: State, c: MonitorConfig): (r: State)
    ensures s.initialized ==> r == s
    ensures r.initialized && r.config == (if s.initialized then s.config else Some(c))
    ensures r.(initialized := s.initialized, config := s.config) == s
  {
    if s.initialized then s else s.(initialized := true, config := Some(c))
  }

  /** `start`: acts only once initialized and while stopped; it empties the
      window and restores the optimistic rate, but leaves the stuck
      accumulator and the wall-clock timestamp as they were. */
  function Start(s: State, nowNanos: int): (r: State)
    ensures !s.initialized || s.started ==> r == s
    ensures s.initialized && !s.started ==>
      && r.started
      && r.frameTimes == [] && r.frameCount == 0
      && r.currentFrameRate == MaxFrameRate
      && r.lastFrameTimeNanos == nowNanos
      && r.stuckFrames == s.stuckFrames && r.lastFrameTimeMs == s.lastFrameTimeMs
      && r.stuckDetecting == s.stuckDetecting
      && r.initialized && r.config == s.config && r.callback == s.callback
  {
    if !s.initialized || s.started then s
    else s.(started := true, frameTimes := [], frameCount := 0,
            currentFrameRate := MaxFrameRate, lastFrameTimeNanos := nowNanos)
  }

  /** `stop`: acts only while started, and keeps the last published rate. */
  function Stop(s: State): (r: State)
    ensures !r.started
    ensures r.(started := s.started) == s
  {
    if !s.started then s else s.(started := false)
  }

  function SetCallback(s: State, cb: Observer): (r: State)
    ensures r.callback == Some(cb)
    ensures r.(callback := s.callback) == s
  {
    s.(callback := Some(cb))
  }

  /** `getData`: the rate counts as normal when it reaches the same threshold
      below which `calculateFPS` notifies. */
  function GetData(s: State): (d: SmoothnessData)
    ensures d.isMonitoring == s.started && d.frameRate == s.currentFrameRate
    ensures d.isNormal <==> !(s.currentFrameRate < LowFrameRateThreshold(s))
  {
    SmoothnessData(s.started, s.currentFrameRate, s.currentFrameRate >= LowFrameRateThreshold(s))
  }

  // ---------------------------------------------------------------- per frame

  /** `onFrame`, on the primary context: posts the frame interval in whole
      milliseconds once a previous frame timestamp exists, posts a stuck check
      when the wall-clock gap since the previous frame exceeds the stuck
      threshold, and records both timestamps for the next frame. */
  function OnFrame(s: State, frameTimeNanos: int, elapsedMs: int, wallMs: int): (r: FrameStep)
    ensures r.state.lastFrameTimeNanos == frameTimeNanos
    ensures r.state.lastFrameTimeMs == wallMs
    ensures r.state.frameCount == s.frameCount + 1
    ensures r.state.(lastFrameTimeNanos := s.lastFrameTimeNanos, lastFrameTimeMs := s.lastFrameTimeMs,
                     frameCount := s.frameCount) == s
    ensures (exists t :: t in r.tasks && t.ProcessFrame?) <==> s.started && s.lastFrameTimeNanos > 0
    ensures forall t | t in r.tasks && t.ProcessFrame? ::
      t.intervalMs == TruncDiv(frameTimeNanos - s.lastFrameTimeNanos, NanosPerMilli) && t.timestamp == elapsedMs
    ensures (exists t :: t in r.tasks && t.CheckStuck?) <==>
      s.started && s.lastFrameTimeMs > 0 && wallMs - s.lastFrameTimeMs > StuckThreshold(s)
    ensures forall t | t in r.tasks && t.CheckStuck? ::
      t.durationMs == wallMs - s.lastFrameTimeMs && t.currentTime == wallMs
    ensures |r.tasks| <= 2
    ensures forall i, j | 0 <= i < j < |r.tasks| :: r.tasks[i].ProcessFrame? && r.tasks[j].CheckStuck?
  {
    var interval :=
      if s.lastFrameTimeNanos > 0 && s.started
      then [ProcessFrame(TruncDiv(frameTimeNanos - s.lastFrameTimeNanos, NanosPerMilli), elapsedMs)]
      else [];
    var frameDuration := wallMs - s.lastFrameTimeMs;
    var stuck :=
      if s.lastFrameTimeMs > 0 && frameDuration > StuckThreshold(s) && s.started
      then [CheckStuck(frameDuration, wallMs)]
      else [];
    var tasks := interval + stuck;
    assert interval != [] ==> tasks[0] in tasks;
    assert stuck != [] ==> tasks[|tasks| - 1] in tasks;
    FrameStep(
      s.(lastFrameTimeNanos := frameTimeNanos, frameCount := s.frameCount + 1, lastFrameTimeMs := wallMs),
      tasks)
  }

  // ---------------------------------------------------------------- sample window

  /** Appends a sample and drops the oldest one when the window overflows. */
  function Push(window: seq<int>, x: int): (r: seq<int>)
    ensures |window| <= WindowCapacity ==> r == LastN(window + [x], WindowCapacity)
    ensures |r| > 0 && r[|r| - 1] == x
  {
    var w := window + [x];
    if |w| > WindowCapacity then w[1..] else w
  }

  /** `processFrameData`, on the worker: records one interval. */
  function ProcessFrameData(s: State, intervalMs: int, timestamp: int): (r: State)
    ensures |s.frameTimes| <= WindowCapacity ==>
      r.frameTimes == LastN(s.frameTimes + [intervalMs], WindowCapacity)
    ensures r.(frameTimes := s.frameTimes) == s
  {
    s.(frameTimes := Push(s.frameTimes, intervalMs))
  }

  // ---------------------------------------------------------------- frame rate

  /** The mean interval of a non-empty window, in whole milliseconds. */
  function MeanInterval(window: seq<int>): int
    requires |window| > 0
  {
    TruncDiv(Sum(window), |window|)
  }

  /** Frames per second for a window: a second divided by the mean interval,
      kept within 0..60, and 60 when the mean is not positive. */
  function FrameRateOf(window: seq<int>): (rate: int)
    requires |window| > 0
    ensures 0 <= rate <= MaxFrameRate
    ensures MeanInterval(window) <= 0 ==> rate == MaxFrameRate
    ensures MeanInterval(window) > 0 ==>
      && rate * MeanInterval(window) <= MillisPerSecond
      && (rate == MaxFrameRate || MillisPerSecond < (rate + 1) * MeanInterval(window))
  {
    var mean := MeanInterval(window);
    var raw := if mean > 0 then MillisPerSecond / mean else MaxFrameRate;
    Clamp(raw, 0, MaxFrameRate)
  }

  /** `calculateFPS`, on the worker once a second: publishes the rate of the
      current window, posts a low-rate notification when the rate is below
      the threshold and a callback is installed, and then empties the window
      whether or not it notified. Without samples, or when stopped, nothing
      happens. */
  function CalculateFps(s: State): (r: Step)
    ensures |s.frameTimes| == 0 || !s.started ==> r == Step(s, [])
    ensures |s.frameTimes| > 0 && s.started ==>
      && 0 <= r.state.currentFrameRate <= MaxFrameRate
      && r.state.currentFrameRate == FrameRateOf(s.frameTimes)
      && r.state.frameTimes == [] && r.state.frameCount == 0
      && r.state.(currentFrameRate := s.currentFrameRate, frameTimes := s.frameTimes,
                  frameCount := s.frameCount) == s
      && (r.events == [LowFrameRate(r.state.currentFrameRate)] || r.events == [])
      && (r.events != [] <==> r.state.currentFrameRate < LowFrameRateThreshold(s) && s.callback.Some?)
  {
    if |s.frameTimes| == 0 || !s.started then Step(s, [])
    else
      var rate := FrameRateOf(s.frameTimes);
      var events := if rate < LowFrameRateThreshold(s) && s.callback != None then [LowFrameRate(rate)] else [];
      Step(s.(currentFrameRate := rate, frameTimes := [], frameCount := 0), events)
  }

  // ---------------------------------------------------------------- stuck frames

  /** Keeps the accumulated durations of at least `StuckPruneBelow`, in order. */
  function PruneShort(acc: seq<int>): (r: seq<int>)
    ensures |r| <= |acc|
    ensures forall i | 0 <= i < |r| :: r[i] >= StuckPruneBelow
    ensures forall x :: x in r <==> x in acc && x >= StuckPruneBelow
    ensures forall x :: multiset(r)[x] == if x >= StuckPruneBelow then multiset(acc)[x] else 0
  {
    if |acc| == 0 then []
    else
      assert acc == [acc[0]] + acc[1..];
      if acc[0] < StuckPruneBelow then PruneShort(acc[1..])
      else [acc[0]] + PruneShort(acc[1..])
  }

  /** The integer mean of the accumulated durations: `average().toLong()`. */
  function StuckMean(acc: seq<int>): int
    requires |acc| > 0
  {
    TruncDiv(Sum(acc), |acc|)
  }

  /** `detectStuck`, on the worker: appends the duration; once three or more
      durations are held, posts one stuck event carrying their mean and the
      primary stack and empties the accumulator; finally drops every held
      duration below 100 ms. Dropped when stopped or while another check is
      in progress. */
  function DetectStuck(s: State, durationMs: int, currentTime: int, stackTrace: string): (r: Step)
    ensures !s.started || s.stuckDetecting ==> r == Step(s, [])
    ensures s.started && !s.stuckDetecting ==>
      && StuckSettled(r.state.stuckFrames)
      && !r.state.stuckDetecting
      && r.state.(stuckFrames := s.stuckFrames) == s
      && (|s.stuckFrames| + 1 >= StuckRunLength ==>
            r.state.stuckFrames == [] && r.events == [FrameStuck(StuckMean(s.stuckFrames + [durationMs]), stackTrace)])
      && (|s.stuckFrames| + 1 < StuckRunLength ==>
            r.state.stuckFrames == PruneShort(s.stuckFrames + [durationMs]) && r.events == [])
  {
    if !s.started || s.stuckDetecting then Step(s, [])
    else
      var acc := s.stuckFrames + [durationMs];
      var fires := |acc| >= StuckRunLength;
      var events := if fires then [FrameStuck(StuckMean(acc), stackTrace)] else [];
      var kept := if fires then [] else acc;
      Step(s.(stuckFrames := PruneShort(kept), stuckDetecting := false), events)
  }

  /** Runs one task posted by `onFrame` on the worker. */
  function RunTask(s: State, t: FrameTask, stackTrace: string): Step
  {
    match t
    case ProcessFrame(interval, timestamp) => Step(ProcessFrameData(s, interval, timestamp), [])
    case CheckStuck(duration, now) => DetectStuck(s, duration, now, stackTrace)
  }
}
