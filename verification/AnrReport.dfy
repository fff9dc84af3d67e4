/** The text the watchdog hands to the observer once a hang is confirmed:
    a header, the delay, the process id, the classified reason, the primary
    context's stack and a section for every live thread. The captured
    stacks and the process id are inputs. */
module AnrReport {
  import opened Common
  import opened Text

  /** One entry of the all-threads capture. */
  datatype ThreadSnapshot = ThreadSnapshot(name: string, id: int, state: string, frames: seq<string>)

  /** What the capture thread reads from the platform. */
  datatype Capture = Capture(pid: int, mainFrames: seq<string>, threads: seq<ThreadSnapshot>)

  /** The fields a reader can recover from a report: the four head lines,
      and everything after the main-stack heading. */
  datatype ReportFields = ReportFields(detectedBy: string, delay: int, pid: int, reason: string, body: string)

  const HeaderPrefix := "ANR Detected by "
  const DelayPrefix := "Delay: "
  const DelayUnit := "ms"
  const ProcessPrefix := "Process: "
  const ReasonPrefix := "Reason: "
  const MainStackHeading := "Main Thread Stack:\n"
  const AllThreadsHeading := "\nAll Threads:\n"

  /** A stack as text: one frame per line. */
  function StackText(frames: seq<string>): string {
    Join("\n", frames)
  }

  /** `Thread: <name> (<id>, <state>)` followed by that thread's stack. */
  function ThreadSection(t: ThreadSnapshot): string {
    "Thread: " + t.name + " (" + IntToString(t.id) + ", " + t.state + ")\n" + StackText(t.frames)
  }

  /** Every thread's section, separated by a blank line. */
  function AllThreadsText(threads: seq<ThreadSnapshot>): string {
    Join("\n\n", seq(|threads|, i requires 0 <= i < |threads| => ThreadSection(threads[i])))
  }

  /** `t` is a suffix of `s`. */
  predicate EndsWith(s: string, t: string) {
    |t| <= |s| && s[|s| - |t|..] == t
  }

  lemma PrependKeepsEnd(a: string, s: string, t: string)
    requires EndsWith(s, t)
    ensures EndsWith(a + s, t)
  {
    assert (a + s)[|a + s| - |t|..] == s[|s| - |t|..];
  }

  lemma EndsWithTrans(r: string, s: string, t: string)
    requires EndsWith(r, s) && EndsWith(s, t)
    ensures EndsWith(r, t)
  {
    assert r[|r| - |t|..] == r[|r| - |s|..][|s| - |t|..];
  }

  /** The report, line by line: `ANR Detected by <tag>`, `Delay: <delay>ms`,
      `Process: <pid>`, `Reason: <reason>`, the primary stack under its
      heading, then a blank line and the all-threads section. */
  function Report(detectedBy: string, delay: int, pid: int, reason: string,
                  stackTrace: string, allThreads: string): (r: string)
    ensures HeaderPrefix + detectedBy + "\n" <= r
    ensures EndsWith(r, MainStackHeading + (stackTrace + ("\n" + (AllThreadsHeading + allThreads))))
    ensures EndsWith(r, AllThreadsHeading + allThreads)
  {
    var tail := AllThreadsHeading + allThreads;
    var s4 := MainStackHeading + (stackTrace + ("\n" + tail));
    var s3 := ReasonPrefix + (reason + ("\n" + s4));
    var s2 := ProcessPrefix + (IntToString(pid) + ("\n" + s3));
    var s1 := DelayPrefix + ((IntToString(delay) + DelayUnit) + ("\n" + s2));
    var r := HeaderPrefix + (detectedBy + ("\n" + s1));
    assert HeaderPrefix + detectedBy + "\n" <= r by {
      assert r == (HeaderPrefix + detectedBy + "\n") + s1;
    }
    assert EndsWith(s4, tail) by {
      assert EndsWith(tail, tail);
      PrependKeepsEnd("\n", tail, tail);
      PrependKeepsEnd(stackTrace, "\n" + tail, tail);
      PrependKeepsEnd(MainStackHeading, stackTrace + ("\n" + tail), tail);
    }
    assert EndsWith(r, s4) by {
      assert EndsWith(s4, s4);
      PrependKeepsEnd("\n", s4, s4);
      PrependKeepsEnd(reason, "\n" + s4, s4);
      PrependKeepsEnd(ReasonPrefix, reason + ("\n" + s4), s4);
      PrependKeepsEnd("\n", s3, s4);
      PrependKeepsEnd(IntToString(pid), "\n" + s3, s4);
      PrependKeepsEnd(ProcessPrefix, IntToString(pid) + ("\n" + s3), s4);
      PrependKeepsEnd("\n", s2, s4);
      PrependKeepsEnd(IntToString(delay) + DelayUnit, "\n" + s2, s4);
      PrependKeepsEnd(DelayPrefix, (IntToString(delay) + DelayUnit) + ("\n" + s2), s4);
      PrependKeepsEnd("\n", s1, s4);
      PrependKeepsEnd(detectedBy, "\n" + s1, s4);
      PrependKeepsEnd(HeaderPrefix, detectedBy + ("\n" + s1), s4);
    }
    EndsWithTrans(r, s4, tail);
    r
  }

  /** After `prefix`, the field up to the first `stop` and the text after it. */
  function ReadField(s: string, prefix: string, stop: char): Option<(string, string)>
  {
    var rest :- StripPrefix(s, prefix);
    SplitAt(rest, stop)
  }

  /** Reads a report back: the header, delay, process and reason lines, and
      the text after the main-stack heading that follows them. */
  function ParseReport(report: string): Option<ReportFields>
  {
    var byLine :- ReadField(report, HeaderPrefix, '\n');
    var delayLine :- ReadField(byLine.1, DelayPrefix, '\n');
    var delayText :- StripSuffix(delayLine.0, DelayUnit);
    var delay :- ParseInt(delayText);
    var pidLine :- ReadField(delayLine.1, ProcessPrefix, '\n');
    var pid :- ParseInt(pidLine.0);
    var reasonLine :- ReadField(pidLine.1, ReasonPrefix, '\n');
    var body :- StripPrefix(reasonLine.1, MainStackHeading);
    Some(ReportFields(byLine.0, delay, pid, reasonLine.0, body))
  }

  lemma ReadFieldOf(prefix: string, field: string, stop: char, rest: string)
    requires stop !in field
    ensures ReadField(prefix + (field + ([stop] + rest)), prefix, stop) == Some((field, rest))
  {
    assert (prefix + (field + ([stop] + rest)))[|prefix|..] == field + ([stop] + rest);
    assert field + ([stop] + rest) == field + [stop] + rest;
    SplitAtFirst(field, stop, rest);
  }

  lemma NoLetterInNumber(n: int, c: char)
    requires c != '-' && !IsDigit(c)
    ensures c !in IntToString(n)
  {
  }

  /** Every report reads back as the values it was built from, as long as
      the header tag and the reason are single lines: the four head lines
      give the tag, delay, process id and reason, and what follows the
      main-stack heading is the stack, a line break and the all-threads
      section, so the reader inverts the layout completely. */
  lemma ReportRoundTrip(detectedBy: string, delay: int, pid: int, reason: string,
                        stackTrace: string, allThreads: string)
    requires '\n' !in detectedBy && '\n' !in reason
    ensures ParseReport(Report(detectedBy, delay, pid, reason, stackTrace, allThreads))
         == Some(ReportFields(detectedBy, delay, pid, reason, stackTrace + ("\n" + (AllThreadsHeading + allThreads))))
  {
    var d := IntToString(delay);
    var p := IntToString(pid);
    var body := stackTrace + ("\n" + (AllThreadsHeading + allThreads));
    var tail := MainStackHeading + body;
    var r3 := ReasonPrefix + (reason + ("\n" + tail));
    var r2 := ProcessPrefix + (p + ("\n" + r3));
    var r1 := DelayPrefix + ((d + DelayUnit) + ("\n" + r2));
    ReadFieldOf(HeaderPrefix, detectedBy, '\n', r1);
    NoLetterInNumber(delay, '\n');
    assert '\n' !in d + DelayUnit;
    ReadFieldOf(DelayPrefix, d + DelayUnit, '\n', r2);
    assert (d + DelayUnit)[|d + DelayUnit| - |DelayUnit|..] == DelayUnit;
    assert StripSuffix(d + DelayUnit, DelayUnit) == Some(d);
    ParseIntToString(delay);
    NoLetterInNumber(pid, '\n');
    ReadFieldOf(ProcessPrefix, p, '\n', r3);
    ParseIntToString(pid);
    ReadFieldOf(ReasonPrefix, reason, '\n', tail);
    assert StripPrefix(tail, MainStackHeading) == Some(body);
  }
}
