/** Properties of the coordinator across calls: initialisation is one-shot,
    repeated starts and stops change nothing, the status string tracks
    initialisation, and the detectors stay in step with the coordinator. */
module PerformanceMonitorProperties {
  import opened Common
  import opened Config
  import Smooth = SmoothnessMonitor
  import Anr = AnrMonitor
  import AnrReport
  import opened PerformanceMonitor

  lemma InitialConsistent(createdAt: int)
    ensures Consistent(Initial(createdAt))
    ensures GetMonitorData(Initial(createdAt)).status == NotInitializedStatus
  {
  }

  /** A second `init` leaves the configuration and every detector as the
      first one left them. */
  lemma InitIsOneShot(s: State, c1: MonitorConfig, c2: MonitorConfig)
    ensures Init(Init(s, c1).state, c2).state == Init(s, c1).state
    ensures Init(Init(s, c1).state, c2).calls == []
  {
  }

  /** `init` from a consistent state leaves both detectors holding exactly
      the configuration the coordinator keeps. */
  lemma InitSharesConfig(s: State, c: MonitorConfig)
    requires Consistent(s) && !s.initialized
    ensures Consistent(Init(s, c).state)
    ensures Init(s, c).state.smoothness.config == Some(c) && Init(s, c).state.anr.config == Some(c)
  {
  }

  /** Starting before `init` fails and reports the missing `init`. */
  lemma StartBeforeInitFails(createdAt: int, nowNanos: int, nowMs: int)
    ensures Start(Initial(createdAt), nowNanos, nowMs) == Failure(NotInitialized(NotInitializedMessage))
  {
  }

  /** After `init` both detectors run once started, and a second `start`
      changes nothing, because each detector ignores `start` while started. */
  lemma StartTwiceIsStartOnce(s: State, n1: int, m1: int, n2: int, m2: int)
    requires Consistent(s) && s.initialized
    ensures Start(s, n1, m1).Success?
    ensures Start(s, n1, m1).value.state.smoothness.started && Start(s, n1, m1).value.state.anr.started
    ensures Start(Start(s, n1, m1).value.state, n2, m2).Success?
    ensures Start(Start(s, n1, m1).value.state, n2, m2).value.state == Start(s, n1, m1).value.state
  {
  }

  /** Stopping a stopped monitor changes nothing. */
  lemma StopIsIdempotent(s: State)
    ensures Stop(Stop(s).state).state == Stop(s).state
  {
  }

  /** The last callback installed is the one both detectors hold. */
  lemma LastCallbackWins(s: State, a: Observer, b: Observer)
    ensures SetCallback(SetCallback(s, a), b) == SetCallback(s, b)
  {
  }

  /** Every coordinator call keeps the detectors in step with it. */
  lemma CallsKeepConsistent(s: State, c: MonitorConfig, cb: Observer, nowNanos: int, nowMs: int)
    requires Consistent(s)
    ensures Consistent(Init(s, c).state)
    ensures Start(s, nowNanos, nowMs).Success? ==> Consistent(Start(s, nowNanos, nowMs).value.state)
    ensures Consistent(Stop(s).state)
    ensures Consistent(SetCallback(s, cb))
  {
  }

  /** A detector state that keeps the flag, configuration and callback of
      the one it replaces keeps the coordinator consistent. */
  lemma KeepsIdentity(s: State, sm: Smooth.State, an: Anr.State)
    requires Consistent(s)
    requires sm.initialized == s.smoothness.initialized && sm.config == s.smoothness.config
    requires sm.callback == s.smoothness.callback
    requires an.initialized == s.anr.initialized && an.config == s.anr.config && an.callback == s.anr.callback
    ensures Consistent(s.(smoothness := sm, anr := an))
  {
  }

  /** The smoothness detector's own work, per frame, per sample, per second
      and per slow frame, never touches what the coordinator keeps in step. */
  lemma SmoothnessWorkKeepsConsistent(s: State, nanos: int, elapsedMs: int, wallMs: int, duration: int,
                                      stackTrace: string)
    requires Consistent(s)
    ensures Consistent(s.(smoothness := Smooth.OnFrame(s.smoothness, nanos, elapsedMs, wallMs).state))
    ensures Consistent(s.(smoothness := Smooth.ProcessFrameData(s.smoothness, duration, elapsedMs)))
    ensures Consistent(s.(smoothness := Smooth.CalculateFps(s.smoothness).state))
    ensures Consistent(s.(smoothness := Smooth.DetectStuck(s.smoothness, duration, wallMs, stackTrace).state))
  {
    var sm := s.smoothness;
    var a := Smooth.OnFrame(sm, nanos, elapsedMs, wallMs).state;
    assert a.initialized == sm.initialized && a.config == sm.config && a.callback == sm.callback;
    KeepsIdentity(s, a, s.anr);
    assert s.(smoothness := a, anr := s.anr) == s.(smoothness := a);
    var b := Smooth.ProcessFrameData(sm, duration, elapsedMs);
    KeepsIdentity(s, b, s.anr);
    assert s.(smoothness := b, anr := s.anr) == s.(smoothness := b);
    var c := Smooth.CalculateFps(sm).state;
    KeepsIdentity(s, c, s.anr);
    assert s.(smoothness := c, anr := s.anr) == s.(smoothness := c);
    var d := Smooth.DetectStuck(sm, duration, wallMs, stackTrace).state;
    KeepsIdentity(s, d, s.anr);
    assert s.(smoothness := d, anr := s.anr) == s.(smoothness := d);
  }

  /** The watchdog's own work, its checks and the ping, never touches what
      the coordinator keeps in step. */
  lemma WatchdogWorkKeepsConsistent(s: State, now: int, pingAt: Option<int>, after: int,
                                    capture: AnrReport.Capture)
    requires Consistent(s)
    ensures Consistent(s.(anr := Anr.CheckAnr(s.anr, now, pingAt, after, capture).state))
    ensures Consistent(s.(anr := Anr.Ping(s.anr, now)))
  {
    var a := Anr.CheckAnr(s.anr, now, pingAt, after, capture).state;
    KeepsIdentity(s, s.smoothness, a);
    assert s.(smoothness := s.smoothness, anr := a) == s.(anr := a);
    var b := Anr.Ping(s.anr, now);
    KeepsIdentity(s, s.smoothness, b);
    assert s.(smoothness := s.smoothness, anr := b) == s.(anr := b);
  }

  /** The fallbacks the detectors use before any configuration is installed
      are the defaults of `MonitorConfig()`: an unconfigured monitor reports
      what a default-configured one would. */
  lemma FallbacksAreDefaults(s: State)
    requires s.smoothness.config == None && s.anr.config == None
    ensures Smooth.GetData(s.smoothness) == Smooth.GetData(s.smoothness.(config := Some(DefaultConfig)))
    ensures Anr.GetData(s.anr) == Anr.GetData(s.anr.(config := Some(DefaultConfig)))
    ensures Smooth.StuckThreshold(s.smoothness) == DefaultConfig.smoothnessConfig.stuckThreshold
  {
  }
}
