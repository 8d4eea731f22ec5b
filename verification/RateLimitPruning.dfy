/**
 What pruning does to the answers of a bucket: those given in a run of interleaved statements and prunings,
 against those of whole calls, one after another, on a bucket that is never pruned.
 */
module RateLimitPruning {
  import opened Options
  import opened TransferStates
  import opened RateLimits
  import opened RateLimitRuns

  datatype Call = ConsumeCall(now: Time) | FailureCall(now: Time) | ActivateCall(now: Time) | LockCall(now: Time) | ClearCall(now: Time)

  // ---------- calls one after another ----------

  function Answered(b: Option<Bucket>, rule: Rule, call: Call): (Answer, Option<Bucket>) {
    match call
    case ConsumeCall(now) =>
      var r := ConsumeAlone(b, 0, rule, now);
      (Decision(r.0), r.1)
    case FailureCall(now) =>
      var count := FailuresWithThis(b, rule.window, now);
      (Count(count), Some(if b.Some? && InWindow(b.value, rule.window, now) then b.value.(count := count, updatedAt := now) else Bucket(0, 1, now, now)))
    case ActivateCall(now) => (Done, Some(Bucket(0, 1, now, now)))
    case LockCall(now) => (Seconds(LockedFor(b, rule.lock, now)), b)
    case ClearCall(now) => (Done, None)
  }

  function Answers(b: Option<Bucket>, rule: Rule, calls: seq<Call>): seq<Answer>
    decreases |calls|
  {
    if calls == [] then []
    else
      var r := Answered(b, rule, calls[0]);
      [r.0] + Answers(r.1, rule, calls[1..])
  }

  // ---------- statements ----------

  function CallOf(st: Statement): Call
    requires !st.DoPrune?
  {
    match st
    case TryIncrement(now) => ConsumeCall(now)
    case Find(now) => ConsumeCall(now)
    case TryReset(_, failure, now) => if failure then FailureCall(now) else ConsumeCall(now)
    case TryCreate(_, failure, now) => if failure then FailureCall(now) else ConsumeCall(now)
    case CountFailure(now) => FailureCall(now)
    case Activate(_, now) => ActivateCall(now)
    case ReadLock(now) => LockCall(now)
    case DoClear(now) => ClearCall(now)
  }

  /** The calls of a run, in the order of the statements that decide their answers. */
  function Calls(b: Option<Bucket>, rule: Rule, steps: seq<Timed>): seq<Call>
    decreases |steps|
  {
    if steps == [] then []
    else
      var e := Effect(b, rule, steps[0].st);
      (if e.0.Some? then [CallOf(steps[0].st)] else []) + Calls(e.1, rule, steps[1..])
  }

  function Given(b: Option<Bucket>, rule: Rule, steps: seq<Timed>): seq<Answer>
    decreases |steps|
  {
    if steps == [] then []
    else
      var e := Effect(b, rule, steps[0].st);
      (if e.0.Some? then [e.0.value] else []) + Given(e.1, rule, steps[1..])
  }

  // ---------- late pruning is invisible ----------

  /** Neither its window nor its lock can matter to a reading that is no older than `oldest`. */
  predicate Spent(b: Bucket, rule: Rule, oldest: Time) {
    b.windowStartedAt + rule.window < oldest && b.windowStartedAt + rule.lock <= oldest
  }

  /**
   The two buckets are the same but for their ids, or one is gone and the other past all use. A bucket looks
   older than its window by `stale` at most.
   */
  predicate Alike(pruned: Option<Bucket>, kept: Option<Bucket>, rule: Rule, delay: nat, stale: nat, clock: Time) {
    && (kept.Some? ==> kept.value.windowStartedAt <= clock && kept.value.windowStartedAt <= kept.value.updatedAt + stale)
    && (kept.Some? ==> kept.value.count > 0)
    && if pruned.Some? then kept.Some? && pruned.value == kept.value.(id := pruned.value.id)
       else kept.Some? ==> Spent(kept.value, rule, clock - delay)
  }

  predicate RetainsLongEnough(rule: Rule, delay: nat, stale: nat) {
    rule.window + delay + stale <= rule.retention && rule.lock + delay + stale <= rule.retention
  }

  /** Where a limit of one is all that a bucket is for, nobody touches it again within its window. */
  predicate MayStale(rule: Rule, delay: nat, stale: nat, st: Statement) {
    stale == delay || (stale == 0 && rule.limit == 1 && Limiting(st))
  }

  /** A statement that decides an answer decides what its call would have got from the bucket that was kept. */
  lemma DecidingStep(pruned: Option<Bucket>, kept: Option<Bucket>, rule: Rule, delay: nat, stale: nat, clock: Time, step: Timed)
    requires rule.limit > 0 && Alike(pruned, kept, rule, delay, stale, clock) && Fresh(step, delay) && step.at >= clock
    requires Effect(pruned, rule, step.st).0.Some? && MayStale(rule, delay, stale, step.st)
    ensures var p, k := Effect(pruned, rule, step.st), Answered(kept, rule, CallOf(step.st));
      Some(k.0) == p.0 && Alike(p.1, k.1, rule, delay, stale, step.at)
  {
  }

  lemma SilentStep(pruned: Option<Bucket>, kept: Option<Bucket>, rule: Rule, delay: nat, stale: nat, clock: Time, step: Timed)
    requires RetainsLongEnough(rule, delay, stale)
    requires Alike(pruned, kept, rule, delay, stale, clock) && Fresh(step, delay) && step.at >= clock
    requires Effect(pruned, rule, step.st).0.None?
    ensures Alike(Effect(pruned, rule, step.st).1, kept, rule, delay, stale, step.at)
  {
  }

  lemma {:induction false} RunsAnswerAlike(pruned: Option<Bucket>, kept: Option<Bucket>, rule: Rule, delay: nat, stale: nat, clock: Time, steps: seq<Timed>)
    requires rule.limit > 0 && RetainsLongEnough(rule, delay, stale)
    requires forall i :: 0 <= i < |steps| ==> MayStale(rule, delay, stale, steps[i].st)
    requires Alike(pruned, kept, rule, delay, stale, clock) && Timely(steps, clock, delay)
    ensures Given(pruned, rule, steps) == Answers(kept, rule, Calls(pruned, rule, steps))
    decreases |steps|
  {
    if steps != [] {
      assert MayStale(rule, delay, stale, steps[0].st);
      var e := Effect(pruned, rule, steps[0].st);
      if e.0.Some? {
        DecidingStep(pruned, kept, rule, delay, stale, clock, steps[0]);
        var k, calls := Answered(kept, rule, CallOf(steps[0].st)), Calls(e.1, rule, steps[1..]);
        RunsAnswerAlike(e.1, k.1, rule, delay, stale, steps[0].at, steps[1..]);
        assert ([CallOf(steps[0].st)] + calls)[1..] == calls;
      } else {
        SilentStep(pruned, kept, rule, delay, stale, clock, steps[0]);
        RunsAnswerAlike(e.1, kept, rule, delay, stale, steps[0].at, steps[1..]);
        assert Calls(pruned, rule, steps) == Calls(e.1, rule, steps[1..]) && Given(pruned, rule, steps) == Given(e.1, rule, steps[1..]);
      }
    }
  }

  /**
   Whatever prunings come between whatever statements of whatever callers: every admission, refusal, count
   and lock that a statement decides is the one its call would have got if the calls had been made one after
   another, each when that statement took effect, and nothing had ever been pruned.
   */
  lemma PruningIsInvisible(rule: Rule, delay: nat, steps: seq<Timed>, clock: Time)
    requires rule.limit > 0 && RetainsLongEnough(rule, delay, delay) && Timely(steps, clock, delay)
    ensures Given(None, rule, steps) == Answers(None, rule, Calls(None, rule, steps))
  {
    RunsAnswerAlike(None, None, rule, delay, delay, clock, steps);
  }

  /** For a limit of one the window and the delay are enough. */
  lemma PruningIsInvisibleForOne(rule: Rule, delay: nat, steps: seq<Timed>, clock: Time)
    requires rule.limit == 1 && RetainsLongEnough(rule, delay, 0) && Timely(steps, clock, delay) && AllLimiting(steps)
    ensures Given(None, rule, steps) == Answers(None, rule, Calls(None, rule, steps))
  {
    RunsAnswerAlike(None, None, rule, delay, 0, clock, steps);
  }

  // ---------- earlier pruning is not ----------

  function Filled(b: Bucket, now: Time, n: nat): Bucket {
    b.(count := b.count + n, updatedAt := if n == 0 then b.updatedAt else now)
  }

  /** The answers given in a run, and those of its calls one after another. */
  predicate Transcript(b: Bucket, rule: Rule, steps: seq<Timed>, given: seq<Answer>, answers: seq<Answer>) {
    given == Given(Some(b), rule, steps) && answers == Answers(Some(b), rule, Calls(Some(b), rule, steps))
  }

  lemma {:induction false} FillIsAnswered(b: Bucket, rule: Rule, now: Time, at: Time, n: nat, rest: seq<Timed>, given: seq<Answer>, answers: seq<Answer>)
    requires InWindow(b, rule.window, now) && b.count + n <= rule.limit
    requires Transcript(Filled(b, now, n), rule, rest, given, answers)
    ensures Transcript(b, rule, Fill(now, at, n) + rest, Admissions(n) + given, Admissions(n) + answers)
    decreases n
  {
    if n == 0 {
      assert Fill(now, at, n) + rest == rest && Admissions(n) + given == given && Admissions(n) + answers == answers;
    } else {
      var next := Filled(b, now, 1);
      assert Filled(next, now, n - 1) == Filled(b, now, n);
      FillIsAnswered(next, rule, now, at, n - 1, rest, given, answers);
      IncrementIsAnswered(b, rule, now, at, Fill(now, at, n - 1) + rest, Admissions(n - 1) + given, Admissions(n - 1) + answers);
      assert Fill(now, at, n) + rest == [Timed(TryIncrement(now), at)] + (Fill(now, at, n - 1) + rest);
      OneMore(n, given);
      OneMore(n, answers);
    }
  }

  lemma OneMore(n: nat, rest: seq<Answer>)
    requires n > 0
    ensures Admissions(n) + rest == [Decision(Admitted)] + (Admissions(n - 1) + rest)
  {
  }

  lemma {:induction false} IncrementIsAnswered(b: Bucket, rule: Rule, now: Time, at: Time, steps: seq<Timed>, given: seq<Answer>, answers: seq<Answer>)
    requires InWindow(b, rule.window, now) && b.count < rule.limit && Transcript(Filled(b, now, 1), rule, steps, given, answers)
    ensures Transcript(b, rule, [Timed(TryIncrement(now), at)] + steps, [Decision(Admitted)] + given, [Decision(Admitted)] + answers)
  {
    assert ([Timed(TryIncrement(now), at)] + steps)[1..] == steps;
    var calls := Calls(Some(Filled(b, now, 1)), rule, steps);
    assert ([ConsumeCall(now)] + calls)[1..] == calls;
  }

  function Admissions(n: nat): seq<Answer> {
    seq(n, i => Decision(Admitted))
  }

  /**
   The other half: where a bucket is retained for less than that, a full bucket
   can be pruned under a caller who should have been refused.
   */
  lemma EarlyPruningShows(rule: Rule, delay: nat) returns (steps: seq<Timed>)
    requires rule.limit > 0 && rule.window >= 0 && rule.retention < rule.window + Lag(rule, delay)
    ensures Timely(steps, 0, delay) && AllLimiting(steps)
    ensures Given(None, rule, steps) != Answers(None, rule, Calls(None, rule, steps))
  {
    var last := if rule.limit == 1 then 0 else 0 - delay;
    var pruned := if rule.retention + 1 + last > 0 then rule.retention + 1 + last else 0;
    var early := Early(pruned, delay);
    var create, fill := Timed(TryCreate(0, false, 0), 0), Fill(0 - delay, 0, rule.limit - 1);
    steps := [create] + (fill + early);
    var created, full, n := Bucket(0, 1, 0, 0), Bucket(0, rule.limit, 0, last), rule.limit - 1;
    EarlyAdmits(full, rule, pruned, delay);
    var given, answers := Given(Some(full), rule, early), Answers(Some(full), rule, Calls(Some(full), rule, early));
    FillIsAnswered(created, rule, 0 - delay, 0, n, early, given, answers);
    assert steps[1..] == fill + early;
    var rest := Calls(Some(created), rule, fill + early);
    assert ([ConsumeCall(0)] + rest)[1..] == rest;
    DifferLater(Admissions(n), given, answers);
    DifferLater([Decision(Admitted)], Admissions(n) + given, Admissions(n) + answers);
    EarlyIsTimely(rule, pruned, delay);
  }

  function Early(pruned: Time, delay: nat): seq<Timed> {
    [Timed(DoPrune(pruned), pruned), Timed(TryCreate(1, false, pruned - delay), pruned)]
  }

  lemma {:induction false} EarlyAdmits(full: Bucket, rule: Rule, pruned: Time, delay: nat)
    requires full.updatedAt < pruned - rule.retention && full.count >= rule.limit > 0
    requires InWindow(full, rule.window, pruned - delay)
    ensures var early, now := Early(pruned, delay), pruned - delay;
      && Given(Some(full), rule, early) == [Decision(Admitted)] && Calls(Some(full), rule, early) == [ConsumeCall(now)]
      && Answers(Some(full), rule, [ConsumeCall(now)]) == [Decision(Refused(RetryAfter(full, rule.window, now)))]
  {
    var early, now := Early(pruned, delay), pruned - delay;
    assert early[1..][0] == early[1] && early[1..][1..] == [];
    assert Calls(None, rule, early[1..]) == [ConsumeCall(now)] && Given(None, rule, early[1..]) == [Decision(Admitted)];
    assert [ConsumeCall(now)][1..] == [];
  }

  lemma EarlyIsTimely(rule: Rule, pruned: Time, delay: nat)
    requires pruned >= 0 && rule.limit > 0
    ensures var steps := [Timed(TryCreate(0, false, 0), 0)] + (Fill(0 - delay, 0, rule.limit - 1) + Early(pruned, delay));
      Timely(steps, 0, delay) && AllLimiting(steps)
  {
    var s := System(Some(Bucket(0, 1, 0, 0)), rule.(window := delay), [], 0, 0);
    var fill, early := Fill(0 - delay, 0, rule.limit - 1), Early(pruned, delay);
    FillAdmits(s, 0 - delay, 0, rule.limit - 1, delay);
    assert early[1..] == [early[1]] && early[1..][1..] == [];
    assert Timely(early[1..], pruned, delay);
    RunSplits(s, fill, early, delay);
    assert ([Timed(TryCreate(0, false, 0), 0)] + (fill + early))[1..] == fill + early;
  }

  lemma DifferLater<T>(a: seq<T>, b: seq<T>, c: seq<T>)
    ensures b != c ==> a + b != a + c
  {
    assert (a + b)[|a|..] == b && (a + c)[|a|..] == c;
  }

  // ---------- as configured ----------

  /** The longest of the configured durations, in seconds. */
  function Longest(durations: seq<nat>): (r: nat)
    ensures forall d :: d in durations ==> d <= r
  {
    if durations == [] then 0
    else
      var rest := Longest(durations[1..]);
      assert durations == [durations[0]] + durations[1..];
      if durations[0] > rest then durations[0] else rest
  }

  function RetentionMs(durations: seq<nat>): Time {
    (Longest(durations) + 60 * 60) * 1000
  }

  function Configured(limit: int, windowSeconds: nat, lockSeconds: nat, durations: seq<nat>): Rule {
    Rule(limit, windowSeconds * 1000, lockSeconds * 1000, RetentionMs(durations))
  }

  /** The hour added to the longest duration is enough for callers who are done within half an hour of their reading. */
  lemma RetainsForHalfAnHour(limit: int, windowSeconds: nat, lockSeconds: nat, durations: seq<nat>, delay: nat)
    requires windowSeconds in durations && lockSeconds in durations && delay <= 30 * 60 * 1000
    ensures RetainsLongEnough(Configured(limit, windowSeconds, lockSeconds, durations), delay, delay)
  {
  }
}
