/** Properties of the smoothness detector that relate several steps: the
    window as the latest samples, the rate of a steady window, the state
    invariant kept by every transition, and when the stuck accumulator can
    and cannot fire. */
module SmoothnessProperties {
  import opened Common
  import opened Config
  import opened SmoothnessMonitor

  /** Feeds the worker a run of intervals, oldest first. */
  function PushAll(window: seq<int>, xs: seq<int>): seq<int>
  {
    if |xs| == 0 then window else Push(PushAll(window, xs[..|xs| - 1]), xs[|xs| - 1])
  }

  /** Feeds the worker a run of slow-frame durations, oldest first, collecting
      the posted events in order. */
  function DetectAll(s: State, durations: seq<int>, currentTime: int, stackTrace: string): Step
  {
    if |durations| == 0 then Step(s, [])
    else
      var prev := DetectAll(s, durations[..|durations| - 1], currentTime, stackTrace);
      var last := DetectStuck(prev.state, durations[|durations| - 1], currentTime, stackTrace);
      Step(last.state, prev.events + last.events)
  }

  /** Runs the tasks `onFrame` posted, in queue order. */
  function RunTasks(s: State, tasks: seq<FrameTask>, stackTrace: string): Step
    decreases |tasks|
  {
    if |tasks| == 0 then Step(s, [])
    else
      var first := RunTask(s, tasks[0], stackTrace);
      var rest := RunTasks(first.state, tasks[1..], stackTrace);
      Step(rest.state, first.events + rest.events)
  }

  // ---------------------------------------------------------------- window

  lemma LastNOfLastN(s: seq<int>, x: int, n: nat)
    requires n > 0
    ensures LastN(LastN(s, n) + [x], n) == LastN(s + [x], n)
  {
    var t := LastN(s, n);
    assert (s + [x])[|s + [x]| - |LastN(s + [x], n)|..] == LastN(s + [x], n);
    if |s| > n {
      assert (t + [x])[1..] == (s + [x])[|s| + 1 - n..];
    }
  }

  /** However many intervals arrive, the window is exactly the latest sixty
      of them (all of them when fewer) in arrival order: the oldest is
      always the first one dropped. */
  lemma {:induction false} WindowHoldsLatestSamples(window: seq<int>, xs: seq<int>)
    requires |window| <= WindowCapacity
    ensures PushAll(window, xs) == LastN(window + xs, WindowCapacity)
    ensures |PushAll(window, xs)| <= WindowCapacity
  {
    if |xs| > 0 {
      var init := xs[..|xs| - 1];
      var x := xs[|xs| - 1];
      WindowHoldsLatestSamples(window, init);
      LastNOfLastN(window + init, x, WindowCapacity);
      assert window + init + [x] == window + xs;
    }
  }

  // ---------------------------------------------------------------- frame rate

  /** A window of equal positive intervals `v` yields `1000 / v` frames per
      second, truncated and capped at sixty. */
  lemma SteadyWindowRate(n: nat, v: int)
    requires n > 0 && v > 0
    ensures FrameRateOf(seq(n, _ => v)) == Clamp(MillisPerSecond / v, 0, MaxFrameRate)
  {
    SumOfConstant(n, v);
    ExactQuotient(n * v, n, v);
  }

  /** Truncating division of an exact multiple recovers the factor. */
  lemma ExactQuotient(a: int, n: int, v: int)
    requires n > 0 && a == n * v
    ensures TruncDiv(a, n) == v
  {
    var q := TruncDiv(a, n);
    assert a - q * n == n * (v - q);
    MultipleBounds(n, v - q);
  }

  lemma MultipleBounds(n: nat, k: int)
    ensures k >= 1 ==> n * k >= n
    ensures k <= -1 ==> n * k <= 0 - n
  {
    if k >= 1 {
      assert n * k == n + n * (k - 1);
    } else if k <= -1 {
      assert n * k == n * (k + 1) - n;
    }
  }

  /** Forty intervals of 25 ms give 40 fps, below the default threshold of 45,
      so a callback is notified with 40 and the window is emptied. */
  lemma FortyFramesOfTwentyFiveMs(s: State, cb: Observer)
    requires s.started && s.config == Some(DefaultConfig) && s.callback == Some(cb)
    requires s.frameTimes == seq(40, _ => 25)
    ensures CalculateFps(s).events == [LowFrameRate(40)]
    ensures CalculateFps(s).state.currentFrameRate == 40
    ensures CalculateFps(s).state.frameTimes == []
  {
    SteadyWindowRate(40, 25);
  }

  /** The rate `getData` calls abnormal is exactly the rate for which
      `calculateFPS` notifies an installed callback. */
  lemma LowRateNoticeAgreesWithData(s: State)
    requires s.started && |s.frameTimes| > 0 && s.callback.Some?
    ensures CalculateFps(s).events != [] <==> !GetData(CalculateFps(s).state).isNormal
    ensures CalculateFps(s).events != [] ==>
      CalculateFps(s).events == [LowFrameRate(GetData(CalculateFps(s).state).frameRate)]
  {
  }

  /** A second computation right after the first finds the window empty and
      changes nothing. */
  lemma RateComputationDrainsWindow(s: State)
    ensures CalculateFps(CalculateFps(s).state) == Step(CalculateFps(s).state, [])
  {
  }

  // ---------------------------------------------------------------- invariant

  lemma InitialValid()
    ensures Valid(Initial)
  {
  }

  /** Every lifecycle and per-frame transition keeps the invariant. */
  lemma LifecycleKeepsValid(s: State, c: MonitorConfig, cb: Observer, nanos: int, elapsedMs: int, wallMs: int)
    requires Valid(s)
    ensures Valid(Init(s, c)) && Valid(Start(s, nanos)) && Valid(Stop(s)) && Valid(SetCallback(s, cb))
    ensures Valid(OnFrame(s, nanos, elapsedMs, wallMs).state)
    ensures Valid(CalculateFps(s).state)
  {
  }

  /** Running any queue of posted tasks keeps the invariant: the window never
      exceeds sixty samples and the accumulator is settled between checks. */
  lemma {:induction false} WorkerKeepsValid(s: State, tasks: seq<FrameTask>, stackTrace: string)
    requires Valid(s)
    ensures Valid(RunTasks(s, tasks, stackTrace).state)
    decreases |tasks|
  {
    if |tasks| > 0 {
      var first := RunTask(s, tasks[0], stackTrace);
      if tasks[0].ProcessFrame? {
        assert first.state.frameTimes == LastN(s.frameTimes + [tasks[0].intervalMs], WindowCapacity);
      }
      assert Valid(first.state);
      WorkerKeepsValid(first.state, tasks[1..], stackTrace);
    }
  }

  /** The tasks one frame posts, spelled out: the interval first when a
      previous frame timestamp exists, then the stuck check when the gap is
      over the threshold; nothing when stopped. */
  function FramePosts(s: State, frameTimeNanos: int, elapsedMs: int, wallMs: int): seq<FrameTask>
  {
    var gap := wallMs - s.lastFrameTimeMs;
    (if s.started && s.lastFrameTimeNanos > 0
     then [ProcessFrame(TruncDiv(frameTimeNanos - s.lastFrameTimeNanos, NanosPerMilli), elapsedMs)] else [])
    + (if s.started && s.lastFrameTimeMs > 0 && gap > StuckThreshold(s) then [CheckStuck(gap, wallMs)] else [])
  }

  lemma OnFramePosts(s: State, frameTimeNanos: int, elapsedMs: int, wallMs: int)
    ensures OnFrame(s, frameTimeNanos, elapsedMs, wallMs).tasks == FramePosts(s, frameTimeNanos, elapsedMs, wallMs)
  {
  }

  lemma RunOne(s: State, t: FrameTask, stackTrace: string)
    ensures RunTasks(s, [t], stackTrace) == RunTask(s, t, stackTrace)
  {
    assert [t][1..] == [];
  }

  lemma RunTwo(s: State, t1: FrameTask, t2: FrameTask, stackTrace: string)
    ensures RunTasks(s, [t1, t2], stackTrace)
         == Step(RunTask(RunTask(s, t1, stackTrace).state, t2, stackTrace).state,
                 RunTask(s, t1, stackTrace).events + RunTask(RunTask(s, t1, stackTrace).state, t2, stackTrace).events)
  {
    assert [t1, t2][1..] == [t2];
    RunOne(RunTask(s, t1, stackTrace).state, t2, stackTrace);
  }

  /** Once the worker runs a frame's posts, the interval `onFrame` measured
      is the newest sample of the window; a frame that posts no interval
      leaves the window as it was. */
  lemma OnFrameFeedsWindow(s: State, frameTimeNanos: int, elapsedMs: int, wallMs: int, stackTrace: string)
    requires Valid(s)
    ensures var f := OnFrame(s, frameTimeNanos, elapsedMs, wallMs);
      var w := RunTasks(f.state, f.tasks, stackTrace).state.frameTimes;
      var interval := TruncDiv(frameTimeNanos - s.lastFrameTimeNanos, NanosPerMilli);
      && (s.started && s.lastFrameTimeNanos > 0 ==>
            w == LastN(s.frameTimes + [interval], WindowCapacity) && w[|w| - 1] == interval)
      && (!(s.started && s.lastFrameTimeNanos > 0) ==> w == s.frameTimes)
  {
    var f := OnFrame(s, frameTimeNanos, elapsedMs, wallMs);
    OnFramePosts(s, frameTimeNanos, elapsedMs, wallMs);
    var tasks := f.tasks;
    var st := f.state;
    assert st.frameTimes == s.frameTimes;
    if |tasks| == 1 {
      assert tasks == [tasks[0]];
      RunOne(st, tasks[0], stackTrace);
    } else if |tasks| == 2 {
      assert tasks == [tasks[0], tasks[1]];
      RunTwo(st, tasks[0], tasks[1], stackTrace);
    }
  }

  /** Once the worker runs a frame's posts, the stuck check `onFrame` posted
      acts on the accumulator it found exactly as `detectStuck` on the frame's
      gap would; a frame that posts no check leaves the accumulator as it
      was and notifies nothing. */
  lemma OnFrameFeedsStuckCheck(s: State, frameTimeNanos: int, elapsedMs: int, wallMs: int, stackTrace: string)
    requires Valid(s)
    ensures var f := OnFrame(s, frameTimeNanos, elapsedMs, wallMs);
      var r := RunTasks(f.state, f.tasks, stackTrace);
      var gap := wallMs - s.lastFrameTimeMs;
      && (s.started && s.lastFrameTimeMs > 0 && gap > StuckThreshold(s) ==>
            && r.state.stuckFrames == DetectStuck(s, gap, wallMs, stackTrace).state.stuckFrames
            && r.events == DetectStuck(s, gap, wallMs, stackTrace).events)
      && (!(s.started && s.lastFrameTimeMs > 0 && gap > StuckThreshold(s)) ==>
            r.state.stuckFrames == s.stuckFrames && r.events == [])
  {
    var f := OnFrame(s, frameTimeNanos, elapsedMs, wallMs);
    OnFramePosts(s, frameTimeNanos, elapsedMs, wallMs);
    var tasks := f.tasks;
    var st := f.state;
    var gap := wallMs - s.lastFrameTimeMs;
    assert st.stuckFrames == s.stuckFrames && st.started == s.started && st.stuckDetecting == s.stuckDetecting;
    if |tasks| == 1 {
      assert tasks == [tasks[0]];
      RunOne(st, tasks[0], stackTrace);
    } else if |tasks| == 2 {
      assert tasks == [tasks[0], tasks[1]];
      RunTwo(st, tasks[0], tasks[1], stackTrace);
      var p := RunTask(st, tasks[0], stackTrace).state;
      assert p.stuckFrames == s.stuckFrames && p.started == s.started && p.stuckDetecting == s.stuckDetecting;
    }
  }

  // ---------------------------------------------------------------- stuck frames

  /** Between checks a stuck event fires on the next slow frame exactly when
      two slow frames of at least 100 ms are already held, and it reports the
      integer mean of those three durations. */
  lemma StuckFiresAfterTwoLongFrames(s: State, d: int, now: int, stackTrace: string)
    requires Valid(s) && s.started
    ensures DetectStuck(s, d, now, stackTrace).events != [] <==> |s.stuckFrames| == 2
    ensures |s.stuckFrames| == 2 ==>
      && s.stuckFrames[0] >= StuckPruneBelow && s.stuckFrames[1] >= StuckPruneBelow
      && DetectStuck(s, d, now, stackTrace).events
         == [FrameStuck(TruncDiv(s.stuckFrames[0] + s.stuckFrames[1] + d, 3), stackTrace)]
  {
    if |s.stuckFrames| == 2 {
      var acc := s.stuckFrames + [d];
      assert Sum(acc) == Sum(s.stuckFrames) + d by {
        assert acc[..|acc| - 1] == s.stuckFrames;
      }
      assert Sum(s.stuckFrames[..1]) == s.stuckFrames[0] by {
        assert s.stuckFrames[..1][..0] == [];
      }
    }
  }

  /** Slow frames shorter than 100 ms never add up to a stuck event: each is
      pruned by the check that records it, so a run of them, however long,
      fires nothing while fewer than two long frames are held, and leaves the
      accumulator as it found it. */
  lemma {:induction false} ShortSlowFramesNeverFire(s: State, ds: seq<int>, now: int, stackTrace: string)
    requires Valid(s) && s.started && |s.stuckFrames| < 2
    requires forall i | 0 <= i < |ds| :: ds[i] < StuckPruneBelow
    ensures DetectAll(s, ds, now, stackTrace).events == []
    ensures DetectAll(s, ds, now, stackTrace).state == s
  {
    if |ds| > 0 {
      ShortSlowFramesNeverFire(s, ds[..|ds| - 1], now, stackTrace);
      var d := ds[|ds| - 1];
      assert PruneShort(s.stuckFrames + [d]) == s.stuckFrames by {
        PruneKeepsLong(s.stuckFrames, d);
      }
    }
  }

  lemma {:induction false} PruneKeepsLong(acc: seq<int>, d: int)
    requires forall i | 0 <= i < |acc| :: acc[i] >= StuckPruneBelow
    requires d < StuckPruneBelow
    ensures PruneShort(acc + [d]) == acc
  {
    if |acc| > 0 {
      assert (acc + [d])[1..] == acc[1..] + [d];
      PruneKeepsLong(acc[1..], d);
      assert [acc[0]] + acc[1..] == acc;
    } else {
      assert PruneShort([d][1..]) == [];
    }
  }

  /** Pruning distributes over concatenation: the kept durations stay in
      their original order, as with an in-place `removeAll`. */
  lemma {:induction false} PruneKeepsOrder(a: seq<int>, b: seq<int>)
    ensures PruneShort(a + b) == PruneShort(a) + PruneShort(b)
  {
    if |a| > 0 {
      assert (a + b)[1..] == a[1..] + b;
      PruneKeepsOrder(a[1..], b);
    } else {
      assert a + b == b;
    }
  }

  /** Three slow frames of 60, 70 and 55 ms under the default 50 ms threshold
      fire no stuck event, although each one is posted as a stuck check. */
  lemma SixtySeventyFiftyFiveFiresNothing(s: State, now: int, stackTrace: string)
    requires Valid(s) && s.started && s.stuckFrames == []
    ensures DetectAll(s, [60, 70, 55], now, stackTrace).events == []
  {
    ShortSlowFramesNeverFire(s, [60, 70, 55], now, stackTrace);
  }

  // ---------------------------------------------------------------- lifecycle

  lemma InitIsOneShot(s: State, c1: MonitorConfig, c2: MonitorConfig)
    ensures Init(Init(s, c1), c2) == Init(s, c1)
  {
  }

  lemma StartIsIdempotent(s: State, t1: int, t2: int)
    ensures Start(Start(s, t1), t2) == Start(s, t1)
  {
  }

  lemma StopIsIdempotent(s: State)
    ensures Stop(Stop(s)) == Stop(s)
  {
  }
}
