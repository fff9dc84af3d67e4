# Performance monitor SDK — a Dafny model of its detectors

This project models the decision logic of an in-process responsiveness
monitor for Android applications. The monitor has two detectors:

- The **smoothness monitor** samples frame intervals into a bounded window.
  Once a second it turns the window into a frame rate. Separately, it
  accumulates slow frames into "stuck" events.
- The **ANR monitor** is a watchdog. It runs a two-phase liveness check
  against the main thread and builds a report when a hang is confirmed.
  The report includes a classified reason for the hang.

A small coordinator (`PerformanceMonitor`) configures both detectors once,
starts and stops them in a fixed order, reports a combined status and
installs one shared callback.

Each detector is an immutable state record. Each operation is a pure
function that returns the new state together with what the source would
post:

- tasks for the detector's worker thread (`FrameTask`);
- notifications for the observer (`Event`);
- for the watchdog, whether a ping was posted to the main thread.

Clocks, frame timestamps, stack text, the process id, and whether the
ping ran during the grace period are all parameters.

| file | module | models |
|---|---|---|
| `Common.dfy` | `Common` | `Option`, `Result`, observer identity, events, Kotlin's truncating `/`, `coerceIn`, `sum()` |
| `Text.dfy` | `Text` | `contains`, `joinToString`, `Long.toString`, and a small parser used to read reports back |
| `Config.dfy` | `Config` | `MonitorConfig` and its defaults (45 fps, 50 ms, 5000 ms) |
| `SmoothnessMonitor.dfy` | `SmoothnessMonitor` | `init`/`start`/`stop`/`setCallback`/`getData`, `onFrame`, `processFrameData`, `calculateFPS`, `detectStuck` |
| `SmoothnessProperties.dfy` | `SmoothnessProperties` | properties that relate several smoothness steps |
| `AnrReason.dfy` | `AnrReason` | `analyzeAnrReason` and a first-match rule table to compare it with |
| `AnrReport.dfy` | `AnrReport` | the report layout from `onANRDetected` and a reader that inverts it |
| `AnrMonitor.dfy` | `AnrMonitor` | `init`/`start`/`stop`/`setCallback`/`getData`, the ping, `checkANR`, `onANRDetected` |
| `AnrProperties.dfy` | `AnrProperties` | properties that relate several watchdog steps |
| `PerformanceMonitor.dfy` | `PerformanceMonitor` | the coordinator |
| `PerformanceMonitorProperties.dfy` | `PerformanceMonitorProperties` | properties of the coordinator |

### Behaviour worth knowing

- **Stuck frames under 100 ms never fire.** Every `detectStuck` call ends by
  removing all accumulated durations below 100
  (`SmoothnessMonitor.kt:238`). Under the default 50 ms threshold, a run of
  frames of 60, 70 and 55 ms therefore fires nothing. The code's own
  comments promise otherwise: `SmoothnessMonitor.kt:218` calls three
  consecutive frames over the threshold stuck, and `MonitorConfig.kt:12`
  calls frame intervals that keep reaching 50 ms stuck. A stuck
  event needs two held frames of at least 100 ms before the third slow
  frame arrives (`StuckFiresAfterTwoLongFrames`, `ShortSlowFramesNeverFire`,
  `SixtySeventyFiftyFiveFiresNothing`).
- **The frame rate is truncated, not rounded.** The rate is `1000 / mean`
  in `Long` arithmetic (`SmoothnessMonitor.kt:181-185`). A steady 17 ms interval gives 58, not 59.
- **A hang is reported on every check, not once.** While the main thread
  stays blocked, every 500 ms check reports it again. Nothing marks a hang
  as already reported (`BlockedContextReportsEveryCheck`).
- **Start and stop run the smoothness monitor first**, then the watchdog.
- **Posting through the worker happens only while started.** The worker
  handler exists only between `start` and `stop`, so `onFrame` posts
  interval samples only while started, and only once a previous frame
  timestamp is set.
- **A stuck event is posted whether or not a callback is installed.** The
  callback is looked up only when the event is delivered. A low-frame-rate
  notice, by contrast, is posted only if a callback is installed when the
  rate is computed.

## Model

| member | source | states |
|---|---|---|
| `SmoothnessMonitor.Init` | src/main/java/com/bytedance/perfmonitor/sdk/SmoothnessMonitor.kt:37-40 | once initialised, `init` changes nothing; the first call installs the configuration and touches nothing else |
| `SmoothnessMonitor.Start` | src/main/java/com/bytedance/perfmonitor/sdk/SmoothnessMonitor.kt:53-62 | acts only when initialised and stopped; empties the window, zeroes the frame count, restores rate 60, records the nanosecond clock; keeps the stuck accumulator and wall-clock timestamp |
| `SmoothnessMonitor.Stop` | src/main/java/com/bytedance/perfmonitor/sdk/SmoothnessMonitor.kt:88-90 | afterwards not started; only the started flag changes, so the last rate stays published |
| `SmoothnessMonitor.SetCallback` | src/main/java/com/bytedance/perfmonitor/sdk/SmoothnessMonitor.kt:111-113 | installs the callback and changes nothing else |
| `SmoothnessMonitor.GetData` | src/main/java/com/bytedance/perfmonitor/sdk/SmoothnessMonitor.kt:115-121 | reports monitoring iff started, the published rate, and normal iff the rate is not below the low-rate threshold (45 when unconfigured) |
| `SmoothnessMonitor.OnFrame` | src/main/java/com/bytedance/perfmonitor/sdk/SmoothnessMonitor.kt:125-158 | posts an interval of (frame time − last frame time) / 1 000 000, truncated, iff started and a previous timestamp is positive; posts a stuck check iff started, a previous wall time is positive and the wall-clock gap exceeds the stuck threshold; interval first; always records both timestamps and counts the frame |
| `SmoothnessMonitor.Push` | src/main/java/com/bytedance/perfmonitor/sdk/SmoothnessMonitor.kt:165-170 | the new window ends with the new sample and is the last 60 samples of old window plus sample |
| `SmoothnessMonitor.ProcessFrameData` | src/main/java/com/bytedance/perfmonitor/sdk/SmoothnessMonitor.kt:163-171 | only the window changes; it becomes the latest 60 samples |
| `SmoothnessMonitor.FrameRateOf` | src/main/java/com/bytedance/perfmonitor/sdk/SmoothnessMonitor.kt:180-191 | rate in 0..60; 60 when the truncated mean interval is not positive; otherwise the largest rate not above 60 whose frames of the mean interval fit in one second |
| `SmoothnessMonitor.CalculateFps` | src/main/java/com/bytedance/perfmonitor/sdk/SmoothnessMonitor.kt:176-205 | no-op with an empty window or when stopped; otherwise publishes the window's rate, posts a low-rate notice with that rate iff it is below the threshold and a callback is set, and empties the window and frame count either way |
| `SmoothnessMonitor.PruneShort` | src/main/java/com/bytedance/perfmonitor/sdk/SmoothnessMonitor.kt:238 | keeps exactly the entries of at least 100, each as often as it occurs |
| `SmoothnessMonitor.DetectStuck` | src/main/java/com/bytedance/perfmonitor/sdk/SmoothnessMonitor.kt:210-241 | no-op when stopped or already detecting; else with three or more held durations posts one stuck event with their truncated mean and empties the accumulator, with fewer posts nothing and prunes; afterwards fewer than three entries, none below 100, flag clear |
| `SmoothnessProperties.WindowHoldsLatestSamples` | src/main/java/com/bytedance/perfmonitor/sdk/SmoothnessMonitor.kt:165-170 | after any run of samples the window is exactly the latest 60 in arrival order |
| `SmoothnessProperties.SteadyWindowRate` | src/main/java/com/bytedance/perfmonitor/sdk/SmoothnessMonitor.kt:180-191 | a window of equal positive intervals v has rate clamp(1000 / v, 0, 60) |
| `SmoothnessProperties.FortyFramesOfTwentyFiveMs` | src/main/java/com/bytedance/perfmonitor/sdk/SmoothnessMonitor.kt:176-205 | forty 25 ms intervals under the default configuration give rate 40, one low-rate notice of 40, and an empty window |
| `SmoothnessProperties.LowRateNoticeAgreesWithData` | src/main/java/com/bytedance/perfmonitor/sdk/SmoothnessMonitor.kt:194-200 | with a callback, a notice is posted iff `getData` then reports the rate as abnormal, and it carries that rate |
| `SmoothnessProperties.RateComputationDrainsWindow` | src/main/java/com/bytedance/perfmonitor/sdk/SmoothnessMonitor.kt:202-204 | a second rate computation right after the first changes nothing |
| `SmoothnessProperties.LifecycleKeepsValid` | src/main/java/com/bytedance/perfmonitor/sdk/SmoothnessMonitor.kt:53-62 | lifecycle, per-frame and rate steps keep window ≤ 60, rate in 0..60 and a settled accumulator |
| `SmoothnessProperties.WorkerKeepsValid` | src/main/java/com/bytedance/perfmonitor/sdk/SmoothnessMonitor.kt:163-241 | running any queue of posted tasks keeps the same invariant |
| `SmoothnessProperties.OnFrameFeedsWindow` | src/main/java/com/bytedance/perfmonitor/sdk/SmoothnessMonitor.kt:129-137 | once the worker runs a frame's posts, the interval measured in that frame is the window's newest sample and the window is the latest 60; without a posted interval the window is unchanged |
| `SmoothnessProperties.OnFrameFeedsStuckCheck` | src/main/java/com/bytedance/perfmonitor/sdk/SmoothnessMonitor.kt:145-155 | once the worker runs a frame's posts, a posted stuck check does to the accumulator and the events what `detectStuck` on that frame's gap does; without one, nothing changes and nothing is notified |
| `SmoothnessProperties.StuckFiresAfterTwoLongFrames` | src/main/java/com/bytedance/perfmonitor/sdk/SmoothnessMonitor.kt:216-238 | between checks, a slow frame fires iff two frames of at least 100 ms are held, and the event carries the truncated mean of the three |
| `SmoothnessProperties.ShortSlowFramesNeverFire` | src/main/java/com/bytedance/perfmonitor/sdk/SmoothnessMonitor.kt:238 | any run of slow frames under 100 ms, with fewer than two long ones held, fires nothing and leaves the state unchanged |
| `SmoothnessProperties.PruneKeepsOrder` | src/main/java/com/bytedance/perfmonitor/sdk/SmoothnessMonitor.kt:238 | pruning distributes over concatenation, so the kept durations stay in their original order |
| `SmoothnessProperties.SixtySeventyFiftyFiveFiresNothing` | src/main/java/com/bytedance/perfmonitor/sdk/SmoothnessMonitor.kt:216-238 | slow frames of 60, 70 and 55 ms fire no stuck event |
| `SmoothnessProperties.InitIsOneShot` | src/main/java/com/bytedance/perfmonitor/sdk/SmoothnessMonitor.kt:37-38 | a second `init` changes nothing |
| `SmoothnessProperties.StartIsIdempotent` | src/main/java/com/bytedance/perfmonitor/sdk/SmoothnessMonitor.kt:53-54 | a second `start` changes nothing |
| `SmoothnessProperties.StopIsIdempotent` | src/main/java/com/bytedance/perfmonitor/sdk/SmoothnessMonitor.kt:88-89 | a second `stop` changes nothing |
| `AnrMonitor.Init` | src/main/java/com/bytedance/perfmonitor/sdk/ANRMonitor.kt:26-29 | once initialised, `init` changes nothing; the first call installs the configuration only |
| `AnrMonitor.Start` | src/main/java/com/bytedance/perfmonitor/sdk/ANRMonitor.kt:37-42 | acts only when initialised and stopped; sets started and the last response time to now, nothing else |
| `AnrMonitor.Stop` | src/main/java/com/bytedance/perfmonitor/sdk/ANRMonitor.kt:63-65 | afterwards not started; nothing else changes |
| `AnrMonitor.SetCallback` | src/main/java/com/bytedance/perfmonitor/sdk/ANRMonitor.kt:81-83 | installs the callback and changes nothing else |
| `AnrMonitor.GetData` | src/main/java/com/bytedance/perfmonitor/sdk/ANRMonitor.kt:85-91 | monitoring iff started; SIGQUIT never reported in use; threshold from the configuration, or the default 5000 when none |
| `AnrMonitor.Ping` | src/main/java/com/bytedance/perfmonitor/sdk/ANRMonitor.kt:109-112 | sets the last response time and changes nothing else |
| `AnrMonitor.OnAnrDetected` | src/main/java/com/bytedance/perfmonitor/sdk/ANRMonitor.kt:131-165 | a notice iff started, carrying the delay, the joined main stack, and the report built with the classified reason |
| `AnrMonitor.CheckAnr` | src/main/java/com/bytedance/perfmonitor/sdk/ANRMonitor.kt:96-126 | no-op when stopped or checking; pings iff first elapsed > threshold; a quiet check changes nothing; a ping run applies `Ping`; reports iff pinged and post-grace elapsed > threshold, with that elapsed as the delay, through `onANRDetected` with the watchdog tag; flag clear on exit |
| `AnrProperties.AnsweredPingSuppressesReport` | src/main/java/com/bytedance/perfmonitor/sdk/ANRMonitor.kt:109-122 | a ping run within the threshold of the second reading means no report |
| `AnrProperties.ReportNeedsBothPhases` | src/main/java/com/bytedance/perfmonitor/sdk/ANRMonitor.kt:104-121 | a report implies started, not checking, both elapsed readings above the threshold, and delay = the second one |
| `AnrProperties.BlockedContextReportsEveryCheck` | src/main/java/com/bytedance/perfmonitor/sdk/ANRMonitor.kt:107-122 | with no ping ever run, a later check reports again |
| `AnrProperties.ResponseTimeWriters` | src/main/java/com/bytedance/perfmonitor/sdk/ANRMonitor.kt:109-112 | init, stop, setCallback and unanswered checks keep the response time; a check moves it only to the ping's time |
| `AnrProperties.CheckClearsFlag` | src/main/java/com/bytedance/perfmonitor/sdk/ANRMonitor.kt:99-125 | the checking flag is clear after a check |
| `AnrProperties.ReasonsAreSingleLines` | src/main/java/com/bytedance/perfmonitor/sdk/ANRMonitor.kt:179-192 | no classifier outcome contains a line break |
| `AnrProperties.ReportReadsBack` | src/main/java/com/bytedance/perfmonitor/sdk/ANRMonitor.kt:150-160 | the report of a confirmed hang starts with the watchdog header, and it reads back as tag, delay, pid, the classified reason, and the main stack followed by the all-threads section |
| `AnrProperties.DetectedReportReadsBack` | src/main/java/com/bytedance/perfmonitor/sdk/ANRMonitor.kt:138-160 | while started, the watchdog report built for any delay and capture reads back as tag, delay, pid, the classified reason of the joined main stack, and that stack followed by the all-threads section |
| `AnrProperties.InitIsOneShot` | src/main/java/com/bytedance/perfmonitor/sdk/ANRMonitor.kt:26-27 | a second `init` changes nothing |
| `AnrProperties.StartIsIdempotent` | src/main/java/com/bytedance/perfmonitor/sdk/ANRMonitor.kt:37-38 | a second `start` changes nothing |
| `AnrProperties.StopIsIdempotent` | src/main/java/com/bytedance/perfmonitor/sdk/ANRMonitor.kt:63-64 | a second `stop` changes nothing |
| `AnrReason.Classify` | src/main/java/com/bytedance/perfmonitor/sdk/ANRMonitor.kt:178-193 | the reason is one of the seven fixed texts |
| `AnrReason.ClassifyIsFirstMatch` | src/main/java/com/bytedance/perfmonitor/sdk/ANRMonitor.kt:178-193 | the classifier equals the first-match reading of the ordered rule table |
| `AnrReason.FirstMatchPicksEarliest` | src/main/java/com/bytedance/perfmonitor/sdk/ANRMonitor.kt:179-191 | with distinct outcomes, rule i's reason results iff rule i fires and no earlier rule does |
| `AnrReason.FirstMatchDefault` | src/main/java/com/bytedance/perfmonitor/sdk/ANRMonitor.kt:192 | the default results iff no rule fires |
| `AnrReason.ClassifyFirstFiringRule` | src/main/java/com/bytedance/perfmonitor/sdk/ANRMonitor.kt:179-191 | the classifier gives rule i's reason iff one of its patterns occurs and no pattern of an earlier rule does |
| `AnrReason.ClassifyUnknownIff` | src/main/java/com/bytedance/perfmonitor/sdk/ANRMonitor.kt:178-193 | "Unknown blocking operation" iff none of the ten patterns occurs |
| `AnrReason.WaitAndSleepStack` | src/main/java/com/bytedance/perfmonitor/sdk/ANRMonitor.kt:180-183 | a stack with both a monitor wait and a sleep is classified as lock waiting: the earlier rule wins |
| `AnrReport.Report` | src/main/java/com/bytedance/perfmonitor/sdk/ANRMonitor.kt:153-160 | the report starts with "ANR Detected by <tag>" and a line break, and ends with the main-stack heading, the stack, a line break, the all-threads heading and section |
| `AnrReport.ReportRoundTrip` | src/main/java/com/bytedance/perfmonitor/sdk/ANRMonitor.kt:153-160 | the reader inverts the layout: the header, delay (with its `ms` unit), process and reason lines give back the values written, and the text after the main-stack heading is exactly the stack, a line break, the all-threads heading and section |
| `Text.ParseIntToString` | src/main/java/com/bytedance/perfmonitor/sdk/ANRMonitor.kt:155-156 | a delay or pid rendered in decimal reads back as the same number |
| `PerformanceMonitor.Init` | src/main/java/com/bytedance/perfmonitor/sdk/PerformanceMonitor.kt:10-20 | a second call changes nothing; the first stores the configuration and initialises the smoothness monitor then the watchdog with it |
| `PerformanceMonitor.Start` | src/main/java/com/bytedance/perfmonitor/sdk/PerformanceMonitor.kt:26-31 | fails with the not-initialised error iff `init` has not happened; otherwise starts the smoothness monitor then the watchdog |
| `PerformanceMonitor.Stop` | src/main/java/com/bytedance/perfmonitor/sdk/PerformanceMonitor.kt:36-38 | stops both detectors unconditionally, smoothness first |
| `PerformanceMonitor.GetMonitorData` | src/main/java/com/bytedance/perfmonitor/sdk/PerformanceMonitor.kt:42-47 | status "Initialized" iff initialised, otherwise "Not Initialized", beside both detectors' data |
| `PerformanceMonitor.SetCallback` | src/main/java/com/bytedance/perfmonitor/sdk/PerformanceMonitor.kt:50-53 | both detectors hold the new callback; nothing else changes |
| `PerformanceMonitorProperties.InitialConsistent` | src/main/java/com/bytedance/perfmonitor/sdk/PerformanceMonitor.kt:5-6 | before `init`, the status is "Not Initialized" and the detectors agree with the coordinator |
| `PerformanceMonitorProperties.InitIsOneShot` | src/main/java/com/bytedance/perfmonitor/sdk/PerformanceMonitor.kt:10-16 | a second `init` leaves configuration and detectors as the first left them |
| `PerformanceMonitorProperties.InitSharesConfig` | src/main/java/com/bytedance/perfmonitor/sdk/PerformanceMonitor.kt:15-20 | after `init`, both detectors hold exactly the coordinator's configuration |
| `PerformanceMonitorProperties.StartBeforeInitFails` | src/main/java/com/bytedance/perfmonitor/sdk/PerformanceMonitor.kt:27-29 | `start` on a fresh monitor fails with the not-initialised message |
| `PerformanceMonitorProperties.StartTwiceIsStartOnce` | src/main/java/com/bytedance/perfmonitor/sdk/PerformanceMonitor.kt:30-31 | after `init`, `start` runs both detectors and a second `start` changes nothing |
| `PerformanceMonitorProperties.StopIsIdempotent` | src/main/java/com/bytedance/perfmonitor/sdk/PerformanceMonitor.kt:36-38 | a second `stop` changes nothing |
| `PerformanceMonitorProperties.LastCallbackWins` | src/main/java/com/bytedance/perfmonitor/sdk/PerformanceMonitor.kt:50-53 | of two `setCallback` calls the last one is what remains |
| `PerformanceMonitorProperties.CallsKeepConsistent` | src/main/java/com/bytedance/perfmonitor/sdk/PerformanceMonitor.kt:9-53 | every coordinator call keeps the detectors' flags, configuration and callback in step with it |
| `PerformanceMonitorProperties.SmoothnessWorkKeepsConsistent` | src/main/java/com/bytedance/perfmonitor/sdk/SmoothnessMonitor.kt:125-241 | per-frame, per-sample, rate and stuck steps never disturb the agreement between coordinator and detectors |
| `PerformanceMonitorProperties.WatchdogWorkKeepsConsistent` | src/main/java/com/bytedance/perfmonitor/sdk/ANRMonitor.kt:96-126 | watchdog checks and the ping never disturb that agreement |
| `PerformanceMonitorProperties.FallbacksAreDefaults` | src/main/java/com/bytedance/perfmonitor/sdk/MonitorConfig.kt:9-18 | an unconfigured detector reports what one configured with `MonitorConfig()` would: 45, 50 and 5000 |

## Left out

- Threads and scheduling: `HandlerThread`, `Handler.post`/`postDelayed`/`removeCallbacks`, the Choreographer frame callback, the 1000 ms and 500 ms repeats and `quitSafely`. Posted work is returned as a list; the order in which queued tasks later run is the caller's choice (`RunTasks` runs them in queue order).
- Concurrency: the atomic flags and lists and `@Synchronized` are modelled as plain, sequential state. `checkANR` and `detectStuck` therefore always find their exclusion flag clear, and the guard is modelled but never taken from a reachable state.
- Clocks, `Thread.sleep(50)`, stack capture, `Thread.getAllStackTraces` and `Process.myPid()` are inputs. The `try`/`catch` around capture, and the `"Unable to get stack trace: …"` fallback text, are not modelled: the stack text is whatever the caller passes.
- SmoothnessMonitor.CalculateFps: the notice's rate is fixed when it is posted. The source's posted lambda reads `currentFrameRate` only when the main thread runs it (`SmoothnessMonitor.kt:197-199`). A later `start` (which resets the rate to 60) or a later `calculateFPS` can therefore change the value delivered, which the model does not show.
- Delivery on the main thread: events are modelled as posted. Which callback finally receives an event (`callback?.` at delivery time) is not modelled.
- SmoothnessMonitor.DetectStuck: `average()` is a `Double` in the source; the model uses the exact integer mean truncated toward zero, without floating-point rounding.
- 64-bit `Long` and 32-bit `Int` wrap-around (of the interval sum, the frame count, clock differences) is not modelled; integers are unbounded.
- `lastCalculateTime` (written by `start`, never read), `frameListener` creation, `sampleInterval`, `debugMode` and `LogUtil` logging are not modelled; none affects a decision.
- The demo activity (`MainActivity.kt`) is not part of this model.
