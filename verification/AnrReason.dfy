/** The hang-cause classifier: ordered substring rules over the primary
    context's stack text, the first rule that matches deciding the reason. */
module AnrReason {
  import opened Text

  const LockReason := "Waiting on lock/synchronization"
  const SleepReason := "Sleeping in main thread"
  const NetworkReason := "Network I/O in main thread"
  const DatabaseReason := "Database operation in main thread"
  const BitmapReason := "Bitmap processing in main thread"
  const IdleReason := "Message queue idle (可能等待消息)"
  const UnknownReason := "Unknown blocking operation"

  /** A rule fires when any of its patterns occurs in the stack text. */
  datatype Rule = Rule(patterns: seq<string>, reason: string)

  /** The rules, highest priority first. */
  const Rules: seq<Rule> := [
    Rule(["Lock.wait", "Object.wait"], LockReason),
    Rule(["Thread.sleep"], SleepReason),
    Rule(["Socket.read", "SocketInputStream"], NetworkReason),
    Rule(["SQLite", "Cursor"], DatabaseReason),
    Rule(["Bitmap", "decode"], BitmapReason),
    Rule(["MessageQueue.nativePollOnce"], IdleReason)
  ]

  const Reasons: set<string> :=
    {LockReason, SleepReason, NetworkReason, DatabaseReason, BitmapReason, IdleReason, UnknownReason}

  predicate Fires(rule: Rule, stack: string) {
    OccursFrom(rule.patterns, 0, stack)
  }

  /** Some pattern at index `k` or later occurs in the stack text. */
  predicate OccursFrom(patterns: seq<string>, k: nat, stack: string)
    decreases |patterns| - k
  {
    k < |patterns| && (Contains(stack, patterns[k]) || OccursFrom(patterns, k + 1, stack))
  }

  lemma {:induction false} OccursFromIff(patterns: seq<string>, k: nat, stack: string)
    ensures OccursFrom(patterns, k, stack) <==> exists i :: k <= i < |patterns| && Contains(stack, patterns[i])
    decreases |patterns| - k
  {
    if k < |patterns| {
      OccursFromIff(patterns, k + 1, stack);
    }
  }

  /** A rule fires exactly when one of its patterns occurs. */
  lemma FiresIff(rule: Rule, stack: string)
    ensures Fires(rule, stack) <==> exists p :: p in rule.patterns && Contains(stack, p)
  {
    OccursFromIff(rule.patterns, 0, stack);
  }

  /** `analyzeAnrReason`. */
  function Classify(stack: string): (reason: string)
    ensures reason in Reasons
  {
    if Contains(stack, "Lock.wait") || Contains(stack, "Object.wait") then LockReason
    else if Contains(stack, "Thread.sleep") then SleepReason
    else if Contains(stack, "Socket.read") || Contains(stack, "SocketInputStream") then NetworkReason
    else if Contains(stack, "SQLite") || Contains(stack, "Cursor") then DatabaseReason
    else if Contains(stack, "Bitmap") || Contains(stack, "decode") then BitmapReason
    else if Contains(stack, "MessageQueue.nativePollOnce") then IdleReason
    else UnknownReason
  }

  /** The reference reading of an ordered rule table: the reason of the first
      rule that fires, or the default when none does. */
  function FirstMatch(rules: seq<Rule>, stack: string, default: string): string
  {
    if |rules| == 0 then default
    else if Fires(rules[0], stack) then rules[0].reason
    else FirstMatch(rules[1..], stack, default)
  }

  /** No two outcomes of a rule table are the same text. */
  predicate DistinctOutcomes(rules: seq<Rule>, default: string) {
    && (forall i, j | 0 <= i < j < |rules| :: rules[i].reason != rules[j].reason)
    && (forall i | 0 <= i < |rules| :: rules[i].reason != default)
  }

  /** The classifier is the first-match reading of `Rules`. */
  lemma ClassifyIsFirstMatch(stack: string)
    ensures Classify(stack) == FirstMatch(Rules, stack, UnknownReason)
  {
    var r := Rules;
    assert Fires(r[0], stack) <==> Contains(stack, "Lock.wait") || Contains(stack, "Object.wait");
    assert Fires(r[1], stack) <==> Contains(stack, "Thread.sleep");
    assert Fires(r[2], stack) <==> Contains(stack, "Socket.read") || Contains(stack, "SocketInputStream");
    assert Fires(r[3], stack) <==> Contains(stack, "SQLite") || Contains(stack, "Cursor");
    assert Fires(r[4], stack) <==> Contains(stack, "Bitmap") || Contains(stack, "decode");
    assert Fires(r[5], stack) <==> Contains(stack, "MessageQueue.nativePollOnce");
    assert r[6..] == [];
    FirstMatchStep(Rules, stack, UnknownReason, 5);
    FirstMatchStep(Rules, stack, UnknownReason, 4);
    FirstMatchStep(Rules, stack, UnknownReason, 3);
    FirstMatchStep(Rules, stack, UnknownReason, 2);
    FirstMatchStep(Rules, stack, UnknownReason, 1);
    FirstMatchStep(Rules, stack, UnknownReason, 0);
  }

  /** One unfolding of the first-match reading on a suffix of the table. */
  lemma FirstMatchStep(rules: seq<Rule>, stack: string, default: string, k: nat)
    requires k < |rules|
    ensures FirstMatch(rules[k..], stack, default)
      == if Fires(rules[k], stack) then rules[k].reason else FirstMatch(rules[k + 1..], stack, default)
  {
    assert rules[k..][1..] == rules[k + 1..];
  }

  /** The first-match reading yields the default or the reason of some rule. */
  lemma {:induction false} FirstMatchOutcome(rules: seq<Rule>, stack: string, default: string)
    ensures FirstMatch(rules, stack, default) == default
         || exists k :: 0 <= k < |rules| && FirstMatch(rules, stack, default) == rules[k].reason
  {
    if |rules| > 0 && !Fires(rules[0], stack) {
      FirstMatchOutcome(rules[1..], stack, default);
      if FirstMatch(rules[1..], stack, default) != default {
        var k :| 0 <= k < |rules[1..]| && FirstMatch(rules[1..], stack, default) == rules[1..][k].reason;
        assert FirstMatch(rules, stack, default) == rules[k + 1].reason;
      }
    } else if |rules| > 0 {
      assert FirstMatch(rules, stack, default) == rules[0].reason;
    }
  }

  /** With distinct outcomes, a first-match table yields rule `i`'s reason
      exactly when rule `i` fires and no earlier rule does. */
  lemma {:induction false} FirstMatchPicksEarliest(rules: seq<Rule>, stack: string, default: string, i: int)
    requires DistinctOutcomes(rules, default)
    requires 0 <= i < |rules|
    ensures FirstMatch(rules, stack, default) == rules[i].reason <==>
      Fires(rules[i], stack) && forall j | 0 <= j < i :: !Fires(rules[j], stack)
  {
    if Fires(rules[0], stack) {
      assert FirstMatch(rules, stack, default) == rules[0].reason;
    } else if i == 0 {
      FirstMatchOutcome(rules[1..], stack, default);
      if FirstMatch(rules[1..], stack, default) != default {
        var k :| 0 <= k < |rules[1..]| && FirstMatch(rules[1..], stack, default) == rules[1..][k].reason;
        assert rules[1..][k] == rules[k + 1];
      }
    } else {
      assert DistinctOutcomes(rules[1..], default);
      FirstMatchPicksEarliest(rules[1..], stack, default, i - 1);
      assert forall j | 1 <= j < |rules| :: rules[j] == rules[1..][j - 1];
    }
  }

  /** A first-match table yields its default exactly when no rule fires. */
  lemma {:induction false} FirstMatchDefault(rules: seq<Rule>, stack: string, default: string)
    requires DistinctOutcomes(rules, default)
    ensures FirstMatch(rules, stack, default) == default <==> forall j | 0 <= j < |rules| :: !Fires(rules[j], stack)
  {
    if |rules| > 0 && !Fires(rules[0], stack) {
      assert DistinctOutcomes(rules[1..], default);
      FirstMatchDefault(rules[1..], stack, default);
      assert forall j | 1 <= j < |rules| :: rules[j] == rules[1..][j - 1];
    }
  }

  /** The classifier reports rule `i`'s reason exactly when one of rule `i`'s
      patterns occurs and none of an earlier rule's patterns does. */
  lemma ClassifyFirstFiringRule(stack: string, i: int)
    requires 0 <= i < |Rules|
    ensures Classify(stack) == Rules[i].reason <==>
      Fires(Rules[i], stack) && forall j | 0 <= j < i :: !Fires(Rules[j], stack)
  {
    ClassifyIsFirstMatch(stack);
    FirstMatchPicksEarliest(Rules, stack, UnknownReason, i);
  }

  /** The classifier gives up exactly when no listed pattern occurs at all. */
  lemma ClassifyUnknownIff(stack: string)
    ensures Classify(stack) == UnknownReason <==>
      forall j, p | 0 <= j < |Rules| && p in Rules[j].patterns :: !Contains(stack, p)
  {
    ClassifyIsFirstMatch(stack);
    FirstMatchDefault(Rules, stack, UnknownReason);
    forall j | 0 <= j < |Rules| {
      FiresIff(Rules[j], stack);
    }
  }

  /** A stack waiting on a monitor while also sleeping is reported as lock
      waiting: the earlier rule wins. */
  lemma WaitAndSleepStack()
    ensures Classify("at java.lang.Object.wait\nat java.lang.Thread.sleep") == LockReason
  {
    var s := "at java.lang.Object.wait\nat java.lang.Thread.sleep";
    assert s == "at java.lang." + "Object.wait" + "\nat java.lang.Thread.sleep";
    ContainsMiddle("at java.lang.", "Object.wait", "\nat java.lang.Thread.sleep");
  }
}
