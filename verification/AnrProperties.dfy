/** Properties of the hang watchdog across calls: what a timely ping
    prevents, what a missing one causes, who may move the response time,
    and what the observer can read back from a report. */
module AnrProperties {
  import opened Common
  import opened Config
  import AnrReason
  import opened AnrReport
  import opened AnrMonitor

  /** A ping that ran during the grace period and left the last response
      within the threshold of the second reading suppresses the report. */
  lemma AnsweredPingSuppressesReport(s: State, now: int, at: int, after: int, capture: Capture)
    requires after - at <= Threshold(s)
    ensures CheckAnr(s, now, Some(at), after, capture).event == None
  {
  }

  /** A hang is reported only when both readings, before and after the grace
      period, find the last response older than the threshold; the delay
      reported is the second reading's. */
  lemma ReportNeedsBothPhases(s: State, now: int, pingAt: Option<int>, after: int, capture: Capture)
    requires CheckAnr(s, now, pingAt, after, capture).event.Some?
    ensures s.started && !s.checking
    ensures now - s.lastResponseTime > Threshold(s)
    ensures var last := if pingAt.Some? then pingAt.value else s.lastResponseTime;
      && after - last > Threshold(s)
      && CheckAnr(s, now, pingAt, after, capture).event.value.delayMs == after - last
  {
  }

  /** While the primary context stays blocked, so that no ping ever runs,
      every later check reports the hang again: one hang yields a report per
      check period, not a single report. */
  lemma BlockedContextReportsEveryCheck(s: State, now1: int, after1: int, now2: int, after2: int,
                                        c1: Capture, c2: Capture)
    requires CheckAnr(s, now1, None, after1, c1).event.Some?
    requires now2 >= now1 && after2 >= after1
    ensures CheckAnr(CheckAnr(s, now1, None, after1, c1).state, now2, None, after2, c2).event.Some?
  {
  }

  /** Checks never move the response time except by running the ping, and
      lifecycle calls other than `start` never move it. */
  lemma ResponseTimeWriters(s: State, c: MonitorConfig, cb: Observer, now: int, pingAt: Option<int>,
                            after: int, capture: Capture)
    ensures Init(s, c).lastResponseTime == s.lastResponseTime
    ensures Stop(s).lastResponseTime == s.lastResponseTime
    ensures SetCallback(s, cb).lastResponseTime == s.lastResponseTime
    ensures CheckAnr(s, now, None, after, capture).state.lastResponseTime == s.lastResponseTime
    ensures var r := CheckAnr(s, now, pingAt, after, capture);
      r.state.lastResponseTime == s.lastResponseTime || (r.pinged && pingAt == Some(r.state.lastResponseTime))
  {
  }

  /** After any completed check the exclusion flag is clear again. */
  lemma CheckClearsFlag(s: State, now: int, pingAt: Option<int>, after: int, capture: Capture)
    requires !s.checking
    ensures !CheckAnr(s, now, pingAt, after, capture).state.checking
  {
  }

  lemma ReasonsAreSingleLines(stack: string)
    ensures '\n' !in AnrReason.Classify(stack)
  {
    var r := AnrReason.Classify(stack);
    if r == AnrReason.LockReason { SingleLine(AnrReason.LockReason); }
    else if r == AnrReason.SleepReason { SingleLine(AnrReason.SleepReason); }
    else if r == AnrReason.NetworkReason { SingleLine(AnrReason.NetworkReason); }
    else if r == AnrReason.DatabaseReason { SingleLine(AnrReason.DatabaseReason); }
    else if r == AnrReason.BitmapReason { SingleLine(AnrReason.BitmapReason); }
    else if r == AnrReason.IdleReason { SingleLine(AnrReason.IdleReason); }
    else { SingleLine(AnrReason.UnknownReason); }
  }

  lemma SingleLine(t: string)
    requires forall i | 0 <= i < |t| :: t[i] != '\n'
    ensures '\n' !in t
  {
  }

  /** An observer reading the report of a confirmed hang recovers the
      watchdog tag, the delay it was notified with, the process id, the
      classified reason of the stack it was handed, and that stack followed
      by the all-threads section. */
  lemma ReportReadsBack(s: State, now: int, pingAt: Option<int>, after: int, capture: Capture)
    requires CheckAnr(s, now, pingAt, after, capture).event.Some?
    ensures var e := CheckAnr(s, now, pingAt, after, capture).event.value;
      && e.AnrDetected?
      && ParseReport(e.logLine)
         == Some(ReportFields(WatchdogTag, e.delayMs, capture.pid, AnrReason.Classify(e.stackTrace),
                              e.stackTrace + ("\n" + (AllThreadsHeading + AllThreadsText(capture.threads)))))
      && HeaderPrefix + WatchdogTag + "\n" <= e.logLine
  {
    var r := CheckAnr(s, now, pingAt, after, capture);
    DetectedReportReadsBack(r.state, r.event.value.delayMs, capture);
  }

  /** The notification `onANRDetected` builds for the watchdog reads back
      as the tag, delay, process id, classified reason and stacks it was
      built from. */
  lemma DetectedReportReadsBack(s: State, delay: int, capture: Capture)
    requires s.started
    ensures var e := OnAnrDetected(s, delay, WatchdogTag, capture).value;
      ParseReport(e.logLine)
      == Some(ReportFields(WatchdogTag, delay, capture.pid, AnrReason.Classify(e.stackTrace),
                           e.stackTrace + ("\n" + (AllThreadsHeading + AllThreadsText(capture.threads)))))
  {
    var stackTrace := StackText(capture.mainFrames);
    ReasonsAreSingleLines(stackTrace);
    SingleLine(WatchdogTag);
    ReportRoundTrip(WatchdogTag, delay, capture.pid, AnrReason.Classify(stackTrace),
                    stackTrace, AllThreadsText(capture.threads));
  }

  lemma InitIsOneShot(s: State, c1: MonitorConfig, c2: MonitorConfig)
    ensures Init(Init(s, c1), c2) == Init(s, c1)
  {
  }

  lemma StartIsIdempotent(s: State, t1: int, t2: int)
    ensures Start(Start(s, t1), t2) == Start(s, t1)
  {
  }

  lemma StopIsIdempotent(s: State)
    ensures Stop(Stop(s)) == Stop(s)
  {
  }
}
