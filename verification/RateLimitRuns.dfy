/**
 Rate-limit buckets over whole runs: the statements of any number of callers and of the pruning, interleaved.
 A statement carries its caller's clock reading and the moment it takes effect. Moments follow each other;
 a reading may be older than its moment by a delay.
 */
module RateLimitRuns {
  import opened Options
  import opened TransferStates
  import opened RateLimits

  datatype Timed = Timed(st: Statement, at: Time)

  /**
   No reading is ahead of its moment, or behind it by more than `delay`. How long a lock holds is read off
   the clock after the bucket was found, and a late pruning is harmless.
   */
  predicate Fresh(step: Timed, delay: nat) {
    && (step.st.ReadLock? || step.st.now <= step.at)
    && (step.st.DoPrune? || step.at <= step.st.now + delay)
  }

  predicate Timely(steps: seq<Timed>, clock: Time, delay: nat)
    decreases |steps|
  {
    steps != [] ==> steps[0].at >= clock && Fresh(steps[0], delay) && Timely(steps[1..], steps[0].at, delay)
  }

  // ---------- runs of a limit ----------

  /** One admitted caller: its reading, its moment, the start of the window it was counted in, and its place there. */
  datatype Admission = Admission(now: Time, at: Time, start: Time, epoch: nat, rank: nat)

  datatype System = System(bucket: Option<Bucket>, rule: Rule, log: seq<Admission>, epoch: nat, clock: Time)

  predicate Initial(s: System) {
    s.bucket.None? && s.rule.limit > 0 && s.log == [] && s.epoch == 0
  }

  function Apply(s: System, step: Timed): System {
    var e := Effect(s.bucket, s.rule, step.st);
    if e.0 == Some(Decision(Admitted)) then
      var epoch := if step.st.TryIncrement? then s.epoch else s.epoch + 1;
      var a := Admission(step.st.now, step.at, e.1.value.windowStartedAt, epoch, e.1.value.count - 1);
      System(e.1, s.rule, s.log + [a], epoch, step.at)
    else
      s.(bucket := e.1, clock := step.at)
  }

  function Run(s: System, steps: seq<Timed>): System
    decreases |steps|
  {
    if steps == [] then s else Run(Apply(s, steps[0]), steps[1..])
  }

  /** Runs join, and so does keeping time. */
  lemma {:induction false} RunSplits(s: System, a: seq<Timed>, b: seq<Timed>, delay: nat)
    ensures Run(s, a + b) == Run(Run(s, a), b)
    ensures Timely(a + b, s.clock, delay) <==> Timely(a, s.clock, delay) && Timely(b, Run(s, a).clock, delay)
    decreases |a|
  {
    if a == [] {
      assert a + b == b;
    } else {
      assert (a + b)[0] == a[0] && (a + b)[1..] == a[1..] + b;
      RunSplits(Apply(s, a[0]), a[1..], b, delay);
    }
  }

  lemma TwoSteps(s: System, a: Timed, b: Timed, delay: nat)
    ensures Run(s, [a, b]) == Apply(Apply(s, a), b)
    ensures s.clock <= a.at <= b.at && Fresh(a, delay) && Fresh(b, delay) ==> Timely([a, b], s.clock, delay)
  {
    assert [a, b][1..] == [b] && [b][1..] == [];
    assert Run(Apply(s, a), [b]) == Apply(Apply(s, a), b);
    assert Timely([b], a.at, delay) <==> b.at >= a.at && Fresh(b, delay);
  }

  lemma {:induction false} LogGrows(s: System, steps: seq<Timed>)
    ensures |s.log| <= |Run(s, steps).log| && Run(s, steps).log[..|s.log|] == s.log
    decreases |steps|
  {
    if steps != [] {
      var next := Apply(s, steps[0]);
      LogGrows(next, steps[1..]);
      assert Run(s, steps).log[..|s.log|] == Run(s, steps).log[..|next.log|][..|s.log|];
    }
  }

  /** What callers who want to be admitted do, and the pruning. */
  predicate Limiting(st: Statement) {
    OfConsumer(st, st.now) || st.DoPrune?
  }

  predicate AllLimiting(steps: seq<Timed>) {
    forall i :: 0 <= i < |steps| ==> Limiting(steps[i].st)
  }

  // ---------- the count is the number of admissions ----------

  function AdmittedSince(log: seq<Admission>, epoch: nat): nat {
    if log == [] then 0 else AdmittedSince(log[..|log| - 1], epoch) + if log[|log| - 1].epoch == epoch then 1 else 0
  }

  predicate CountOk(s: System) {
    && s.rule.limit > 0
    && (forall i :: 0 <= i < |s.log| ==> s.log[i].epoch <= s.epoch)
    && (s.bucket.Some? ==> s.bucket.value.count == AdmittedSince(s.log, s.epoch) && 1 <= s.bucket.value.count <= s.rule.limit)
  }

  lemma AdmittedAppends(log: seq<Admission>, a: Admission, epoch: nat)
    ensures AdmittedSince(log + [a], epoch) == AdmittedSince(log, epoch) + if a.epoch == epoch then 1 else 0
  {
    assert (log + [a])[..|log|] == log;
  }

  lemma {:induction false} NoneInNewEpoch(log: seq<Admission>, epoch: nat)
    requires forall i :: 0 <= i < |log| ==> log[i].epoch < epoch
    ensures AdmittedSince(log, epoch) == 0
  {
    if log != [] {
      NoneInNewEpoch(log[..|log| - 1], epoch);
    }
  }

  lemma StepKeepsCount(s: System, step: Timed)
    requires CountOk(s) && (Limiting(step.st) || step.st.DoClear?)
    ensures CountOk(Apply(s, step)) && Apply(s, step).rule == s.rule
  {
    var after := Apply(s, step);
    if |after.log| > |s.log| {
      var a := after.log[|s.log|];
      AdmittedAppends(s.log, a, after.epoch);
      if !step.st.TryIncrement? {
        NoneInNewEpoch(s.log, after.epoch);
      }
    }
  }

  lemma {:induction false} RunKeepsCount(s: System, steps: seq<Timed>)
    requires CountOk(s) && forall i :: 0 <= i < |steps| ==> Limiting(steps[i].st) || steps[i].st.DoClear?
    ensures CountOk(Run(s, steps))
    decreases |steps|
  {
    if steps != [] {
      StepKeepsCount(s, steps[0]);
      RunKeepsCount(Apply(s, steps[0]), steps[1..]);
    }
  }

  /**
   With any clocks the count is the number of callers admitted since the bucket was last reset or created,
   and stays within the limit.
   */
  lemma CountIsAdmitted(s: System, steps: seq<Timed>)
    requires Initial(s) && Run(s, steps).bucket.Some?
    requires forall i :: 0 <= i < |steps| ==> Limiting(steps[i].st) || steps[i].st.DoClear?
    ensures var end := Run(s, steps);
      end.bucket.value.count == AdmittedSince(end.log, end.epoch) && 1 <= end.bucket.value.count <= s.rule.limit
  {
    RunKeepsCount(s, steps);
    RuleStays(s, steps);
  }

  lemma {:induction false} RuleStays(s: System, steps: seq<Timed>)
    ensures Run(s, steps).rule == s.rule
    decreases |steps|
  {
    if steps != [] {
      RuleStays(Apply(s, steps[0]), steps[1..]);
    }
  }

  // ---------- how admissions follow each other ----------

  predicate Sound(a: Admission, rule: Rule, delay: nat) {
    && a.now <= a.at <= a.now + delay && a.now - rule.window <= a.start <= a.at
    && a.rank < rule.limit && (a.rank == 0 ==> a.start == a.now)
  }

  /** In the same window, in a later one, or after the bucket of the earlier one was pruned. */
  predicate Follows(a: Admission, b: Admission, rule: Rule) {
    && a.at <= b.at
    && if b.epoch == a.epoch then b.rank == a.rank + 1 && b.start == a.start
       else b.epoch == a.epoch + 1 && b.rank == 0 && (b.start > a.start + rule.window || b.at > a.now + rule.retention)
  }

  predicate LogOk(log: seq<Admission>, rule: Rule, delay: nat) {
    && (forall i :: 0 <= i < |log| ==> Sound(log[i], rule, delay))
    && (forall i :: 0 <= i < |log| - 1 ==> Follows(log[i], log[i + 1], rule))
  }

  predicate BucketOk(s: System) {
    if s.log == [] then s.bucket.None?
    else
      var last := s.log[|s.log| - 1];
      && last.at <= s.clock && last.epoch == s.epoch
      && if s.bucket.Some? then
           s.bucket.value.count == last.rank + 1 && s.bucket.value.windowStartedAt == last.start && s.bucket.value.updatedAt == last.now
         else s.clock > last.now + s.rule.retention
  }

  predicate TimedInv(s: System, delay: nat) {
    s.rule.limit > 0 && s.rule.window >= 0 && LogOk(s.log, s.rule, delay) && BucketOk(s)
  }

  lemma TimedStep(s: System, step: Timed, delay: nat)
    requires TimedInv(s, delay) && Limiting(step.st) && Fresh(step, delay) && step.at >= s.clock
    ensures TimedInv(Apply(s, step), delay) && Apply(s, step).rule == s.rule
  {
    var after, n := Apply(s, step), |s.log|;
    if |after.log| > n {
      assert Sound(after.log[n], s.rule, delay);
      if n > 0 {
        assert Follows(s.log[n - 1], after.log[n], s.rule);
      }
    }
  }

  lemma {:induction false} TimedRun(s: System, steps: seq<Timed>, delay: nat)
    requires TimedInv(s, delay) && AllLimiting(steps) && Timely(steps, s.clock, delay)
    ensures TimedInv(Run(s, steps), delay) && Run(s, steps).rule == s.rule
    decreases |steps|
  {
    if steps != [] {
      TimedStep(s, steps[0], delay);
      TimedRun(Apply(s, steps[0]), steps[1..], delay);
    }
  }

  // ---------- how fast windows can follow each other ----------

  /** How much older than now a bucket can look when it is created again: by the delay of that caller, and of the last one before. */
  function Lag(rule: Rule, delay: nat): nat {
    if rule.limit == 1 then delay else 2 * delay
  }

  /** What `pruned` of `epochs` new windows cost at least, in starting time, if pruning let them begin. */
  function Climb(epochs: nat, pruned: nat, rule: Rule, delay: nat): int {
    (epochs - pruned) * (rule.window + 1) + pruned * (rule.retention + 1 - Lag(rule, delay))
  }

  lemma NewWindowClimbs(k: nat, pruned: nat, rule: Rule, delay: nat)
    ensures Climb(k + 1, pruned, rule, delay) == Climb(k, pruned, rule, delay) + rule.window + 1
    ensures Climb(k + 1, pruned + 1, rule, delay) == Climb(k, pruned, rule, delay) + rule.retention + 1 - Lag(rule, delay)
    ensures rule.limit * (k + 1) == rule.limit * k + rule.limit
    ensures (pruned + 1) * (rule.retention + 1 - delay) == pruned * (rule.retention + 1 - delay) + rule.retention + 1 - delay
  {
    assert (k + 1 - pruned) * (rule.window + 1) == (k - pruned) * (rule.window + 1) + rule.window + 1;
  }

  /** From one admission to a later one, with the number of new windows between them that began with a pruned bucket. */
  lemma {:induction false} WindowsClimb(log: seq<Admission>, rule: Rule, delay: nat, i: nat, j: nat) returns (pruned: nat)
    requires LogOk(log, rule, delay) && i <= j < |log|
    ensures log[i].epoch <= log[j].epoch && pruned <= log[j].epoch - log[i].epoch
    ensures log[j].at - log[i].at >= pruned * (rule.retention + 1 - delay)
    ensures log[j].start - log[i].start >= Climb(log[j].epoch - log[i].epoch, pruned, rule, delay)
    ensures j - i <= rule.limit * (log[j].epoch - log[i].epoch) + log[j].rank - log[i].rank
    decreases j
  {
    if i == j {
      return 0;
    }
    pruned := WindowsClimb(log, rule, delay, i, j - 1);
    var a, b, k := log[j - 1], log[j], log[j - 1].epoch - log[i].epoch;
    assert Follows(a, b, rule) && Sound(a, rule, delay) && Sound(b, rule, delay);
    if b.epoch != a.epoch {
      NewWindowClimbs(k, pruned, rule, delay);
      if b.start <= a.start + rule.window {
        assert b.at - a.at >= rule.retention + 1 - delay;
        pruned := pruned + 1;
      }
    }
  }

  // ---------- the most that a span of time admits ----------

  /** With pruning late enough: as many windows as start in the span and the delay, and what is left of one more. */
  function MostInSpan(rule: Rule, span: nat, delay: nat): int
    requires rule.window >= 0
  {
    var windows := (span + delay) / (rule.window + 1);
    if (span + delay) % (rule.window + 1) == 0 then rule.limit * (windows + 1) else rule.limit * (windows + 2) - 1
  }

  lemma AtMost(x: int, k: int, d: int)
    requires d > 0 && k * d <= x
    ensures k <= x / d
  {
    var q := x / d;
    assert x == q * d + x % d && (q + 1) * d == q * d + d;
    if k > q {
      Products(d, q + 1, k);
    }
  }

  /** Of `k` stretches of length `w` one may begin before the span, unless `first` begins with the span. */
  lemma FewWindows(total: nat, w: nat, k: nat, first: bool)
    requires w > 0 && k * w <= total + if first then 0 else w - 1
    ensures k <= total / w + if first || total % w == 0 then 0 else 1
  {
    var q := total / w;
    assert total == q * w + total % w && (q + 1) * w == q * w + w && (q + 2) * w == q * w + 2 * w;
    if k > q {
      Products(w, q + 1, k);
    }
    if k > q + 1 {
      Products(w, q + 2, k);
    }
  }

  /** `k` windows begin after the first admission of the span, whose rank is `rank`. */
  lemma CountInSpan(rule: Rule, span: nat, delay: nat, k: nat, rank: nat)
    requires rule.window >= 0 && rank < rule.limit
    requires k * (rule.window + 1) <= span + delay + if rank == 0 then 0 else rule.window
    ensures rule.limit * k + rule.limit - rank <= MostInSpan(rule, span, delay)
  {
    var w := rule.window + 1;
    FewWindows(span + delay, w, k, rank == 0);
    var q := (span + delay) / w;
    var most := q + if rank == 0 || (span + delay) % w == 0 then 0 else 1;
    Products(rule.limit, k, most);
    assert rule.limit * (q + 1) == rule.limit * q + rule.limit;
    assert rule.limit * (q + 2) == rule.limit * (q + 1) + rule.limit;
  }

  lemma Products(x: int, a: int, b: int)
    requires x >= 0 && a <= b
    ensures x * a <= x * b
  {
  }

  /**
   The number of callers whose admissions take effect within any span of time is bounded, whatever the
   interleaving, if buckets are retained for a window and twice the delay, or once for a limit of one.
   */
  lemma SpanAdmitsAtMost(s: System, steps: seq<Timed>, delay: nat, span: nat, i: nat, j: nat)
    requires Initial(s) && s.rule.window >= 0 && s.rule.retention >= s.rule.window + Lag(s.rule, delay)
    requires AllLimiting(steps) && Timely(steps, s.clock, delay) && i <= j < |Run(s, steps).log|
    requires Run(s, steps).log[j].at - Run(s, steps).log[i].at <= span
    ensures j - i + 1 <= MostInSpan(s.rule, span, delay)
  {
    TimedRun(s, steps, delay);
    var log, rule := Run(s, steps).log, s.rule;
    var pruned := WindowsClimb(log, rule, delay, i, j);
    var k := log[j].epoch - log[i].epoch;
    assert Sound(log[i], rule, delay) && Sound(log[j], rule, delay);
    Products(pruned, 0, rule.retention + 1 - delay);
    ClimbIs(k, pruned, rule, delay);
    Products(pruned, rule.window + Lag(rule, delay) - rule.retention, 0);
    CountInSpan(rule, span, delay, k, log[i].rank);
  }

  /** With readings made at the moment of effect, a span as long as the window admits less than twice the limit. */
  lemma UndelayedSpan(s: System, steps: seq<Timed>, i: nat, j: nat)
    requires Initial(s) && s.rule.window >= 0 && s.rule.retention >= s.rule.window
    requires AllLimiting(steps) && Timely(steps, s.clock, 0) && i <= j < |Run(s, steps).log|
    requires Run(s, steps).log[j].at - Run(s, steps).log[i].at <= s.rule.window
    ensures j - i + 1 <= 2 * s.rule.limit - 1
  {
    SpanAdmitsAtMost(s, steps, 0, s.rule.window, i, j);
    assert s.rule.window / (s.rule.window + 1) == 0;
  }

  /** With earlier pruning a bucket can be forgotten while its window lasts; the span is still bounded. */
  function MostWithPruning(rule: Rule, span: nat, delay: nat): int
    requires rule.window >= 0 && rule.retention >= delay
  {
    var forgotten := span / (rule.retention + 1 - delay);
    rule.limit * (1 + (span + delay + rule.window + forgotten * (rule.window + Lag(rule, delay) - rule.retention)) / (rule.window + 1))
  }

  lemma SpanAdmitsWithPruning(s: System, steps: seq<Timed>, delay: nat, span: nat, i: nat, j: nat)
    requires Initial(s) && s.rule.window >= 0 && delay <= s.rule.retention <= s.rule.window + Lag(s.rule, delay)
    requires AllLimiting(steps) && Timely(steps, s.clock, delay) && i <= j < |Run(s, steps).log|
    requires Run(s, steps).log[j].at - Run(s, steps).log[i].at <= span
    ensures j - i + 1 <= MostWithPruning(s.rule, span, delay)
  {
    TimedRun(s, steps, delay);
    var log, rule := Run(s, steps).log, s.rule;
    var pruned := WindowsClimb(log, rule, delay, i, j);
    var k := log[j].epoch - log[i].epoch;
    assert Sound(log[i], rule, delay) && Sound(log[j], rule, delay);
    Products(pruned, 0, rule.retention + 1 - delay);
    CountWithPruning(rule, span, delay, k, pruned);
  }

  lemma CountWithPruning(rule: Rule, span: nat, delay: nat, k: nat, pruned: nat)
    requires rule.limit > 0 && rule.window >= 0 && delay <= rule.retention <= rule.window + Lag(rule, delay)
    requires pruned * (rule.retention + 1 - delay) <= span && Climb(k, pruned, rule, delay) <= span + delay + rule.window
    ensures rule.limit * k + rule.limit <= MostWithPruning(rule, span, delay)
  {
    var w, gap, slack := rule.window + 1, rule.retention + 1 - delay, rule.window + Lag(rule, delay) - rule.retention;
    AtMost(span, pruned, gap);
    Products(slack, pruned, span / gap);
    ClimbIs(k, pruned, rule, delay);
    AtMost(span + delay + rule.window + span / gap * slack, k, w);
    Products(rule.limit, 1 + k, 1 + (span + delay + rule.window + span / gap * slack) / w);
    assert rule.limit * (1 + k) == rule.limit * k + rule.limit;
  }

  lemma ClimbIs(k: nat, pruned: nat, rule: Rule, delay: nat)
    ensures Climb(k, pruned, rule, delay) == k * (rule.window + 1) - pruned * (rule.window + Lag(rule, delay) - rule.retention)
  {
    var w, slack := rule.window + 1, rule.window + Lag(rule, delay) - rule.retention;
    assert (k - pruned) * w == k * w - pruned * w;
    assert rule.retention + 1 - Lag(rule, delay) == w - slack;
    assert pruned * (w - slack) == pruned * w - pruned * slack;
  }

  // ---------- the bounds are reached ----------

  /** `n` callers with one reading, admitted at one moment. */
  function Fill(now: Time, at: Time, n: nat): seq<Timed> {
    if n == 0 then [] else [Timed(TryIncrement(now), at)] + Fill(now, at, n - 1)
  }

  predicate Within(log: seq<Admission>, from: nat, low: Time, high: Time) {
    forall i :: from <= i < |log| ==> low <= log[i].at <= high
  }

  lemma WithinJoins(a: seq<Admission>, b: seq<Admission>, from: nat, low: Time, mid: Time, high: Time)
    requires |a| <= |b| && b[..|a|] == a && mid <= high
    requires Within(a, from, low, mid) && Within(b, |a|, low, high)
    ensures Within(b, from, low, high)
  {
    forall i | from <= i < |b| ensures low <= b[i].at <= high {
      if i < |a| {
        assert b[i] == b[..|a|][i];
      }
    }
  }

  /** One run after another. */
  lemma Joins(s: System, a: seq<Timed>, b: seq<Timed>, delay: nat, from: nat, low: Time, mid: Time, high: Time)
    requires AllLimiting(a) && Timely(a, s.clock, delay) && Within(Run(s, a).log, from, low, mid) && mid <= high
    requires AllLimiting(b) && Timely(b, Run(s, a).clock, delay) && Within(Run(Run(s, a), b).log, |Run(s, a).log|, low, high)
    ensures AllLimiting(a + b) && Timely(a + b, s.clock, delay) && Run(s, a + b) == Run(Run(s, a), b)
    ensures Within(Run(s, a + b).log, from, low, high)
  {
    RunSplits(s, a, b, delay);
    LogGrows(Run(s, a), b);
    WithinJoins(Run(s, a).log, Run(s, a + b).log, from, low, mid, high);
  }

  lemma OneStep(s: System, a: Timed, delay: nat)
    ensures Run(s, [a]) == Apply(s, a)
    ensures s.clock <= a.at && Fresh(a, delay) ==> Timely([a], s.clock, delay)
  {
    assert [a][1..] == [];
  }

  lemma {:induction false} FillAdmits(s: System, now: Time, at: Time, n: nat, delay: nat)
    requires s.bucket.Some? && InWindow(s.bucket.value, s.rule.window, now) && s.bucket.value.count + n <= s.rule.limit
    requires s.clock <= at && now <= at <= now + delay
    ensures var steps := Fill(now, at, n);
      && AllLimiting(steps) && Timely(steps, s.clock, delay)
    ensures var end := Run(s, Fill(now, at, n));
      && end.rule == s.rule && s.clock <= end.clock <= at && |end.log| == |s.log| + n && end.log[..|s.log|] == s.log
      && Within(end.log, |s.log|, at, at)
      && end.bucket == Some(s.bucket.value.(count := s.bucket.value.count + n, updatedAt := if n == 0 then s.bucket.value.updatedAt else now))
    decreases n
  {
    if n > 0 {
      var next := Apply(s, Timed(TryIncrement(now), at));
      FillAdmits(next, now, at, n - 1, delay);
      assert Fill(now, at, n)[1..] == Fill(now, at, n - 1);
      var end := Run(next, Fill(now, at, n - 1));
      assert end.log[|s.log|] == end.log[..|next.log|][|s.log|];
      assert end.log[..|s.log|] == end.log[..|next.log|][..|s.log|];
    }
  }

  function Later(a: Time, b: Time): Time {
    if a > b then a else b
  }

  /** `n` full windows in the quickest succession, by callers with the oldest readings that still keep to `floor`. */
  function Windows(rule: Rule, start: Time, floor: Time, n: nat): seq<Timed>
    requires rule.limit > 0
    decreases n
  {
    if n == 0 then []
    else
      var now := start + rule.window + 1;
      [Timed(TryReset(Bucket(0, 1, start, start), false, now), Later(floor, now))]
      + Fill(now, Later(floor, now), rule.limit - 1) + Windows(rule, now, floor, n - 1)
  }

  lemma {:induction false} WindowAdmits(s: System, start: Time, floor: Time, delay: nat)
    requires s.bucket.Some? && s.bucket.value.id == 0 && s.bucket.value.windowStartedAt == start
    requires s.rule.limit > 0 && s.rule.window >= 0 && s.clock <= Later(floor, start) && floor <= start + s.rule.window + 1 + delay
    ensures var now := start + s.rule.window + 1;
      var at := Later(floor, now);
      var steps := [Timed(TryReset(Bucket(0, 1, start, start), false, now), at)] + Fill(now, at, s.rule.limit - 1);
      var end := Run(s, steps);
      && AllLimiting(steps) && Timely(steps, s.clock, delay) && end.rule == s.rule && end.clock <= at
      && |end.log| == |s.log| + s.rule.limit && Within(end.log, |s.log|, floor, at)
      && end.bucket.Some? && end.bucket.value.id == 0 && end.bucket.value.windowStartedAt == now
  {
    var now := start + s.rule.window + 1;
    var at := Later(floor, now);
    var one := [Timed(TryReset(Bucket(0, 1, start, start), false, now), at)];
    var next := Apply(s, one[0]);
    OneStep(s, one[0], delay);
    FillAdmits(next, now, at, s.rule.limit - 1, delay);
    Joins(s, one, Fill(now, at, s.rule.limit - 1), delay, |s.log|, floor, at, at);
  }

  function End(rule: Rule, start: Time, n: nat): Time {
    start + n * (rule.window + 1)
  }

  lemma EndMoves(rule: Rule, start: Time, n: nat)
    requires n > 0 && rule.window >= 0
    ensures End(rule, start + rule.window + 1, n - 1) == End(rule, start, n) >= start + rule.window + 1
    ensures rule.limit * n == rule.limit + rule.limit * (n - 1)
  {
    Products(rule.window + 1, 1, n);
  }

  lemma {:induction false} WindowsAdmit(s: System, start: Time, floor: Time, n: nat, delay: nat)
    requires s.bucket.Some? && s.bucket.value.id == 0 && s.bucket.value.windowStartedAt == start
    requires s.rule.limit > 0 && s.rule.window >= 0 && s.clock <= Later(floor, start) && floor <= start + s.rule.window + 1 + delay
    ensures var steps := Windows(s.rule, start, floor, n);
      && AllLimiting(steps) && Timely(steps, s.clock, delay)
    ensures var end := Run(s, Windows(s.rule, start, floor, n));
      && |end.log| == |s.log| + s.rule.limit * n
      && Within(end.log, |s.log|, floor, Later(floor, End(s.rule, start, n)))
      && end.rule == s.rule && end.clock <= Later(floor, End(s.rule, start, n))
      && end.bucket.Some? && end.bucket.value.id == 0 && end.bucket.value.windowStartedAt == End(s.rule, start, n)
    decreases n
  {
    if n > 0 {
      var now := start + s.rule.window + 1;
      var one := [Timed(TryReset(Bucket(0, 1, start, start), false, now), Later(floor, now))] + Fill(now, Later(floor, now), s.rule.limit - 1);
      var rest := Windows(s.rule, now, floor, n - 1);
      WindowAdmits(s, start, floor, delay);
      var next := Run(s, one);
      WindowsAdmit(next, now, floor, n - 1, delay);
      EndMoves(s.rule, start, n);
      Joins(s, one, rest, delay, |s.log|, floor, Later(floor, now), Later(floor, End(s.rule, start, n)));
    }
  }

  /** The bucket is created by one caller, filled up at moment zero, and then by window after window. */
  function Quickest(rule: Rule, created: Time, at: Time, delay: nat, n: nat): seq<Timed>
    requires rule.limit > 0
  {
    FirstWindow(rule, created, at, delay) + Windows(rule, created, 0, n)
  }

  function FirstWindow(rule: Rule, created: Time, at: Time, delay: nat): seq<Timed>
    requires rule.limit > 0
  {
    [Timed(TryCreate(0, false, created), at)] + Fill(0 - delay, 0, rule.limit - 1)
  }

  lemma FirstWindowFills(rule: Rule, created: Time, at: Time, delay: nat)
    requires rule.limit > 0 && rule.window >= 0 && created <= at <= created + delay && at <= 0
    requires 0 - delay - rule.window <= created <= 0 - delay
    ensures var s, steps := System(None, rule, [], 0, at), FirstWindow(rule, created, at, delay);
      var full := Run(s, steps);
      && AllLimiting(steps) && Timely(steps, at, delay) && full.rule == rule && full.clock <= 0 && |full.log| == rule.limit
      && full.log[0].at == at && Within(full.log, 1, 0, 0)
      && full.bucket.Some? && full.bucket.value.id == 0 && full.bucket.value.windowStartedAt == created
  {
    var s := System(None, rule, [], 0, at);
    var one, fill := [Timed(TryCreate(0, false, created), at)], Fill(0 - delay, 0, rule.limit - 1);
    var first := Apply(s, one[0]);
    OneStep(s, one[0], delay);
    FillAdmits(first, 0 - delay, 0, rule.limit - 1, delay);
    RunSplits(s, one, fill, delay);
    LogGrows(first, fill);
    assert Run(first, fill).log[0] == Run(first, fill).log[..1][0];
  }

  lemma QuickestAdmits(rule: Rule, created: Time, at: Time, delay: nat, n: nat)
    requires rule.limit > 0 && rule.window >= 0 && created <= at <= created + delay && at <= 0
    requires 0 - delay - rule.window <= created <= 0 - delay
    ensures var s, steps := System(None, rule, [], 0, at), Quickest(rule, created, at, delay, n);
      && AllLimiting(steps) && Timely(steps, s.clock, delay) && |Run(s, steps).log| == rule.limit * (n + 1)
      && Run(s, steps).log[0].at == at && Within(Run(s, steps).log, 1, 0, Later(0, End(rule, created, n)))
      && Run(s, steps).rule == rule && Run(s, steps).clock <= Later(0, End(rule, created, n))
      && Run(s, steps).bucket.Some? && Run(s, steps).bucket.value.id == 0
      && Run(s, steps).bucket.value.windowStartedAt == End(rule, created, n)
  {
    var s, first, rest := System(None, rule, [], 0, at), FirstWindow(rule, created, at, delay), Windows(rule, created, 0, n);
    FirstWindowFills(rule, created, at, delay);
    var full := Run(s, first);
    WindowsAdmit(full, created, 0, n, delay);
    Joins(s, first, rest, delay, 1, 0, 0, Later(0, End(rule, created, n)));
    LogGrows(full, rest);
    assert Run(full, rest).log[0] == Run(full, rest).log[..|full.log|][0];
    assert rule.limit * (n + 1) == rule.limit + rule.limit * n;
  }

  /** The last of the windows that the bound counts still begins within the span. */
  lemma LastWindowFits(rule: Rule, span: nat, delay: nat)
    requires rule.limit > 0 && rule.window >= 0
    ensures var q := (span + delay) / (rule.window + 1);
      && 1 <= rule.limit * (q + 1) && 2 <= rule.limit * (q + 2) && End(rule, 0 - delay, q) <= span
      && ((span + delay) % (rule.window + 1) != 0 ==> End(rule, 0 - delay - rule.window, q + 1) <= span)
  {
    var w, q := rule.window + 1, (span + delay) / (rule.window + 1);
    assert span + delay == q * w + (span + delay) % w && (q + 1) * w == q * w + w;
    Products(q + 1, 1, rule.limit);
    Products(q + 2, 1, rule.limit);
  }

  /** For every rule, span and delay there is a run that reaches the bound, without any pruning. */
  lemma MostIsReached(rule: Rule, span: nat, delay: nat) returns (s: System, steps: seq<Timed>, i: nat, j: nat)
    requires rule.limit > 0 && rule.window >= 0
    ensures Initial(s) && s.rule == rule && AllLimiting(steps) && Timely(steps, s.clock, delay)
    ensures i <= j < |Run(s, steps).log| && Run(s, steps).log[j].at - Run(s, steps).log[i].at <= span
    ensures j - i + 1 == MostInSpan(rule, span, delay)
  {
    var q := (span + delay) / (rule.window + 1);
    LastWindowFits(rule, span, delay);
    if (span + delay) % (rule.window + 1) == 0 {
      s, steps, i := System(None, rule, [], 0, 0), Quickest(rule, 0 - delay, 0, delay, q), 0;
      QuickestAdmits(rule, 0 - delay, 0, delay, q);
    } else {
      var created := 0 - delay - rule.window;
      s, steps, i := System(None, rule, [], 0, created), Quickest(rule, created, created, delay, q + 1), 1;
      QuickestAdmits(rule, created, created, delay, q + 1);
    }
    j := |Run(s, steps).log| - 1;
  }

  // ---------- buckets that are pruned before their callers are done ----------

  /** Created by a caller with an old reading and pruned at once, again and again. */
  function Forgotten(delay: nat, n: nat): seq<Timed> {
    if n == 0 then [] else [Timed(TryCreate(0, false, 0 - delay), 0), Timed(DoPrune(0), 0)] + Forgotten(delay, n - 1)
  }

  lemma {:induction false} ForgottenAdmits(s: System, delay: nat, n: nat)
    requires s.bucket.None? && s.clock == 0 && delay > s.rule.retention
    ensures AllLimiting(Forgotten(delay, n)) && Timely(Forgotten(delay, n), 0, delay)
    ensures |Run(s, Forgotten(delay, n)).log| == |s.log| + n && Within(Run(s, Forgotten(delay, n)).log, |s.log|, 0, 0)
    decreases n
  {
    if n > 0 {
      var steps, rest := Forgotten(delay, n), Forgotten(delay, n - 1);
      var one := Apply(s, steps[0]);
      var two := Apply(one, steps[1]);
      assert steps[1..][0] == steps[1] && steps[1..][1..] == rest;
      ForgottenAdmits(two, delay, n - 1);
      LogGrows(two, rest);
      WithinJoins(two.log, Run(two, rest).log, |s.log|, 0, 0, 0);
    }
  }

  /** Where readings can be older than the retention there is no bound: any number of callers can be admitted in one moment. */
  lemma NoBoundBeyondRetention(rule: Rule, delay: nat, n: nat) returns (s: System, steps: seq<Timed>)
    requires rule.limit > 0 && delay > rule.retention
    ensures Initial(s) && s.rule == rule && AllLimiting(steps) && Timely(steps, s.clock, delay)
    ensures |Run(s, steps).log| == n && Within(Run(s, steps).log, 0, 0, 0)
  {
    s, steps := System(None, rule, [], 0, 0), Forgotten(delay, n);
    ForgottenAdmits(s, delay, n);
  }

  /** A window begun without delay, but filled by callers with old readings: the bucket looks older than its window. */
  function LooksOld(rule: Rule, start: Time, delay: nat): seq<Timed>
    requires rule.limit > 0
  {
    var now := start + rule.window + 1;
    [Timed(TryReset(Bucket(0, 1, start, start), false, now), now)] + Fill(now - delay, now, rule.limit - 1)
  }

  lemma LooksOldAdmits(s: System, start: Time, delay: nat)
    requires s.bucket.Some? && s.bucket.value.id == 0 && s.bucket.value.windowStartedAt == start
    requires s.rule.limit >= 2 && s.rule.window >= 0 && s.clock <= start + s.rule.window + 1
    ensures var now, steps := start + s.rule.window + 1, LooksOld(s.rule, start, delay);
      var end := Run(s, steps);
      && AllLimiting(steps) && Timely(steps, s.clock, delay) && end.rule == s.rule && end.clock <= now
      && |end.log| == |s.log| + s.rule.limit && Within(end.log, |s.log|, now, now)
      && end.bucket.Some? && end.bucket.value.updatedAt == now - delay
  {
    var now := start + s.rule.window + 1;
    var one, fill := [Timed(TryReset(Bucket(0, 1, start, start), false, now), now)], Fill(now - delay, now, s.rule.limit - 1);
    var next := Apply(s, one[0]);
    OneStep(s, one[0], delay);
    FillAdmits(next, now - delay, now, s.rule.limit - 1, delay);
    Joins(s, one, fill, delay, |s.log|, now, now, now);
  }

  /** It is pruned, and created again by a caller with an old reading. */
  function CreatedAgain(rule: Rule, pruned: Time, delay: nat): seq<Timed>
    requires rule.limit > 0
  {
    PrunedAndCreated(pruned, delay) + Fill(pruned - delay, pruned, rule.limit - 1)
  }

  lemma CreatedAgainAdmits(s: System, pruned: Time, delay: nat)
    requires s.bucket.Some? && s.bucket.value.updatedAt < pruned - s.rule.retention
    requires s.rule.limit > 0 && s.rule.window >= 0 && s.clock <= pruned
    ensures var steps := CreatedAgain(s.rule, pruned, delay);
      var end := Run(s, steps);
      && AllLimiting(steps) && Timely(steps, s.clock, delay) && end.rule == s.rule && end.clock <= pruned
      && |end.log| == |s.log| + s.rule.limit && Within(end.log, |s.log|, pruned, pruned)
      && end.bucket.Some? && end.bucket.value.id == 0 && end.bucket.value.windowStartedAt == pruned - delay
  {
    var two, fill := PrunedAndCreated(pruned, delay), Fill(pruned - delay, pruned, s.rule.limit - 1);
    OneIsReadmitted(s, pruned, delay);
    FillAdmits(Run(s, two), pruned - delay, pruned, s.rule.limit - 1, delay);
    Joins(s, two, fill, delay, |s.log|, pruned, pruned, pruned);
  }

  function PrunedAndCreated(pruned: Time, delay: nat): seq<Timed> {
    [Timed(DoPrune(pruned), pruned), Timed(TryCreate(0, false, pruned - delay), pruned)]
  }

  lemma OneIsReadmitted(s: System, pruned: Time, delay: nat)
    requires s.bucket.Some? && s.bucket.value.updatedAt < pruned - s.rule.retention && s.clock <= pruned
    ensures var pair, now := PrunedAndCreated(pruned, delay), pruned - delay;
      var end := Run(s, pair);
      && AllLimiting(pair) && Timely(pair, s.clock, delay) && end.rule == s.rule && end.clock == pruned
      && end.bucket == Some(Bucket(0, 1, now, now)) && end.log == s.log + [Admission(now, pruned, now, s.epoch + 1, 0)]
  {
    TwoSteps(s, Timed(DoPrune(pruned), pruned), Timed(TryCreate(0, false, pruned - delay), pruned), delay);
  }

  lemma BeforePruning(rule: Rule, delay: nat) returns (s: System, steps: seq<Timed>, now: Time)
    requires rule.limit >= 2 && rule.window >= 0
    ensures now == End(rule, 0 - delay - rule.window, delay) + rule.window + 1
    ensures Initial(s) && s.rule == rule && AllLimiting(steps) && Timely(steps, s.clock, delay)
    ensures var end := Run(s, steps);
      && end.rule == rule && end.clock <= now && |end.log| == rule.limit * (delay + 2) && Within(end.log, 1, 0, now)
      && end.bucket.Some? && end.bucket.value.updatedAt == now - delay
  {
    var created, start := 0 - delay - rule.window, End(rule, 0 - delay - rule.window, delay);
    s, now := System(None, rule, [], 0, created), start + rule.window + 1;
    var a, b := Quickest(rule, created, created, delay, delay), LooksOld(rule, start, delay);
    QuickestAdmits(rule, created, created, delay, delay);
    EndAfter(rule, delay);
    LooksOldAdmits(Run(s, a), start, delay);
    Joins(s, a, b, delay, 1, 0, Later(0, start), now);
    steps := a + b;
  }

  lemma EndAfter(rule: Rule, delay: nat)
    requires rule.window >= 0
    ensures End(rule, 0 - delay - rule.window, delay) == delay * rule.window - rule.window
    ensures delay * rule.window >= 0 && rule.limit * (delay + 2) == rule.limit * (delay + 1) + rule.limit
    ensures rule.limit * (delay + 1) == rule.limit + rule.limit * delay
  {
  }

  lemma EndPast(rule: Rule, pruned: Time, delay: nat)
    requires rule.window >= 0
    ensures pruned <= End(rule, pruned - delay, delay) == pruned + delay * rule.window
    ensures rule.limit * (delay + 1) == rule.limit + rule.limit * delay
  {
    EndAfter(rule, delay);
  }

  lemma AfterPruning(s: System, pruned: Time, delay: nat)
    requires s.bucket.Some? && s.bucket.value.updatedAt < pruned - s.rule.retention
    requires s.rule.limit > 0 && s.rule.window >= 0 && s.clock <= pruned
    ensures var steps := CreatedAgain(s.rule, pruned, delay) + Windows(s.rule, pruned - delay, pruned, delay);
      var end := Run(s, steps);
      && AllLimiting(steps) && Timely(steps, s.clock, delay) && |end.log| == |s.log| + s.rule.limit * (delay + 1)
      && Within(end.log, |s.log|, pruned, pruned + delay * s.rule.window)
  {
    EndPast(s.rule, pruned, delay);
    CreatedAndFilled(s, pruned, delay, delay, End(s.rule, pruned - delay, delay));
  }

  lemma CreatedAndFilled(s: System, pruned: Time, delay: nat, n: nat, last: Time)
    requires s.bucket.Some? && s.bucket.value.updatedAt < pruned - s.rule.retention
    requires s.rule.limit > 0 && s.rule.window >= 0 && s.clock <= pruned <= last == End(s.rule, pruned - delay, n)
    ensures var steps := CreatedAgain(s.rule, pruned, delay) + Windows(s.rule, pruned - delay, pruned, n);
      var end := Run(s, steps);
      && AllLimiting(steps) && Timely(steps, s.clock, delay) && |end.log| == |s.log| + s.rule.limit + s.rule.limit * n
      && Within(end.log, |s.log|, pruned, last)
  {
    var a, b := CreatedAgain(s.rule, pruned, delay), Windows(s.rule, pruned - delay, pruned, n);
    CreatedAgainAdmits(s, pruned, delay);
    WindowsAdmit(Run(s, a), pruned - delay, pruned, n, delay);
    Joins(s, a, b, delay, |s.log|, pruned, pruned, last);
  }

  /** Callers one by one, each with the oldest reading, and each with a bucket that has just been pruned. */
  function OneByOne(rule: Rule, at: Time, delay: nat, n: nat): seq<Timed>
    decreases n
  {
    if n == 0 then []
    else
      var next := at + rule.retention + 1 - delay;
      CreatedAndPruned(at, next, delay) + OneByOne(rule, next, delay, n - 1)
  }

  function CreatedAndPruned(at: Time, pruned: Time, delay: nat): seq<Timed> {
    [Timed(TryCreate(0, false, at - delay), at), Timed(DoPrune(pruned), pruned)]
  }

  lemma OneIsAdmitted(s: System, at: Time, pruned: Time, delay: nat)
    requires s.bucket.None? && s.clock <= at <= pruned && pruned > at - delay + s.rule.retention
    ensures var pair := CreatedAndPruned(at, pruned, delay);
      var end := Run(s, pair);
      && AllLimiting(pair) && Timely(pair, s.clock, delay) && end.bucket.None? && end.rule == s.rule && end.clock == pruned
      && end.log == s.log + [Admission(at - delay, at, at - delay, s.epoch + 1, 0)]
  {
    TwoSteps(s, Timed(TryCreate(0, false, at - delay), at), Timed(DoPrune(pruned), pruned), delay);
  }

  /** `n` gaps one after another. */
  function Gaps(gap: int, n: nat): int {
    if n == 0 then 0 else gap + Gaps(gap, n - 1)
  }

  lemma {:induction false} GapsAre(gap: nat, most: nat, n: nat)
    requires gap <= most
    ensures 0 <= Gaps(gap, n) <= n * most
    decreases n
  {
    if n > 0 {
      GapsAre(gap, most, n - 1);
      assert n * most == (n - 1) * most + most;
    }
  }

  /** The first takes effect at `at`, and the last `n - 1` gaps later. */
  predicate Spaced(log: seq<Admission>, from: nat, n: nat, at: Time, gap: int) {
    |log| == from + n && (n > 0 ==> log[from].at == at && log[|log| - 1].at == at + Gaps(gap, n - 1))
  }

  lemma {:induction false} OneByOneAdmits(s: System, at: Time, delay: nat, n: nat)
    requires s.bucket.None? && s.rule.limit > 0 && s.clock <= at && s.rule.retention >= delay
    ensures var steps := OneByOne(s.rule, at, delay, n);
      AllLimiting(steps) && Timely(steps, s.clock, delay)
    ensures Spaced(Run(s, OneByOne(s.rule, at, delay, n)).log, |s.log|, n, at, s.rule.retention + 1 - delay)
    decreases n
  {
    if n > 0 {
      var next := at + s.rule.retention + 1 - delay;
      var pair, rest := CreatedAndPruned(at, next, delay), OneByOne(s.rule, next, delay, n - 1);
      OneIsAdmitted(s, at, next, delay);
      RunSplits(s, pair, rest, delay);
      var two := Run(s, pair);
      OneByOneAdmits(two, next, delay, n - 1);
      LogGrows(two, rest);
      SpacedOneMore(s.log, two.log[|s.log|], Run(two, rest).log, n, at, s.rule.retention + 1 - delay);
    }
  }

  lemma SpacedOneMore(log: seq<Admission>, a: Admission, end: seq<Admission>, n: nat, at: Time, gap: int)
    requires n > 0 && a.at == at && |end| > |log| && end[..|log| + 1] == log + [a] && Spaced(end, |log| + 1, n - 1, at + gap, gap)
    ensures Spaced(end, |log|, n, at, gap)
  {
    assert end[|log|] == end[..|log| + 1][|log|];
  }

  lemma OneByOneExceeds(rule: Rule, delay: nat) returns (s: System, steps: seq<Timed>, span: nat)
    requires rule.limit == 1 && rule.window >= 0 && delay <= rule.retention < rule.window + delay
    ensures Initial(s) && s.rule == rule && AllLimiting(steps) && Timely(steps, s.clock, delay)
    ensures |Run(s, steps).log| > 0 && Run(s, steps).log[|Run(s, steps).log| - 1].at - Run(s, steps).log[0].at == span
    ensures |Run(s, steps).log| > MostInSpan(rule, span, delay)
  {
    s, steps := System(None, rule, [], 0, 0), OneByOne(rule, 0, delay, delay + 2);
    OneByOneAdmits(s, 0, delay, delay + 2);
    span := GapsAreShort(rule, delay);
  }

  lemma GapsAreShort(rule: Rule, delay: nat) returns (span: nat)
    requires rule.limit == 1 && rule.window >= 0 && delay <= rule.retention < rule.window + delay
    ensures span == Gaps(rule.retention + 1 - delay, delay + 1) && MostInSpan(rule, span, delay) < delay + 2
  {
    GapsAre(rule.retention + 1 - delay, rule.window, delay + 1);
    span := Gaps(rule.retention + 1 - delay, delay + 1);
    FewForOne(rule, span, delay);
  }

  lemma FewForOne(rule: Rule, span: nat, delay: nat)
    requires rule.limit == 1 && rule.window >= 0 && span <= (delay + 1) * rule.window
    ensures MostInSpan(rule, span, delay) < delay + 2
  {
    var total, w := span + delay, rule.window + 1;
    assert (delay + 1) * w == (delay + 1) * rule.window + delay + 1;
    WholeWindows(total, w, delay + 1);
    assert total == total / w * w + total % w;
  }

  /** The bound needs the full retention: with any less, some span admits more. */
  lemma EarlyPruningExceeds(rule: Rule, delay: nat) returns (s: System, steps: seq<Timed>, span: nat, i: nat, j: nat)
    requires rule.limit > 0 && rule.window >= 0 && rule.retention < rule.window + Lag(rule, delay)
    ensures Initial(s) && s.rule == rule && AllLimiting(steps) && Timely(steps, s.clock, delay)
    ensures i <= j < |Run(s, steps).log| && Run(s, steps).log[j].at - Run(s, steps).log[i].at <= span
    ensures j - i + 1 > MostInSpan(rule, span, delay)
  {
    if rule.retention < delay {
      var most := MostInSpan(rule, 0, delay);
      s, steps := NoBoundBeyondRetention(rule, delay, if most >= 0 then most + 1 else 1);
      span, i, j := 0, 0, |Run(s, steps).log| - 1;
    } else if rule.limit == 1 {
      s, steps, span := OneByOneExceeds(rule, delay);
      i, j := 0, |Run(s, steps).log| - 1;
    } else {
      s, steps := WithEarlyPruning(rule, delay);
      Exceeds(rule, delay);
      span, i, j := LongSpan(rule, delay), 1, |Run(s, steps).log| - 1;
    }
  }

  function LongSpan(rule: Rule, delay: nat): int {
    2 * (delay * rule.window) + rule.retention + 2 - delay
  }

  /** Full windows as quickly as without pruning, one bucket that is pruned early, and full windows again. */
  lemma WithEarlyPruning(rule: Rule, delay: nat) returns (s: System, steps: seq<Timed>)
    requires rule.limit >= 2 && rule.window >= 0 && rule.retention >= delay
    ensures Initial(s) && s.rule == rule && AllLimiting(steps) && Timely(steps, s.clock, delay)
    ensures |Run(s, steps).log| == rule.limit * (delay + 2) + rule.limit * (delay + 1)
    ensures Within(Run(s, steps).log, 1, 0, LongSpan(rule, delay))
  {
    var before, now;
    s, before, now := BeforePruning(rule, delay);
    SpanFits(rule, delay, now);
    steps := PrunedAndFilled(s, before, now, LongSpan(rule, delay), delay);
  }

  lemma SpanFits(rule: Rule, delay: nat, now: Time)
    requires rule.window >= 0 && now == End(rule, 0 - delay - rule.window, delay) + rule.window + 1
    ensures now >= 0 && LongSpan(rule, delay) == now + rule.retention + 1 - delay + delay * rule.window
  {
    EndAfter(rule, delay);
  }

  lemma PrunedAndFilled(s: System, before: seq<Timed>, now: Time, last: Time, delay: nat) returns (steps: seq<Timed>)
    requires s.rule.limit > 0 && s.rule.window >= 0 && s.rule.retention >= delay
    requires AllLimiting(before) && Timely(before, s.clock, delay)
    requires var full := Run(s, before);
      && full.rule == s.rule && full.clock <= now && Within(full.log, 1, 0, now)
      && full.bucket.Some? && full.bucket.value.updatedAt == now - delay
    requires now >= 0 && last == now + s.rule.retention + 1 - delay + delay * s.rule.window
    ensures AllLimiting(steps) && Timely(steps, s.clock, delay) && Within(Run(s, steps).log, 1, 0, last)
    ensures |Run(s, steps).log| == |Run(s, before).log| + s.rule.limit * (delay + 1)
  {
    var pruned := now + s.rule.retention + 1 - delay;
    Products(s.rule.window, 0, delay);
    AfterPruning(Run(s, before), pruned, delay);
    var after := CreatedAgain(s.rule, pruned, delay) + Windows(s.rule, pruned - delay, pruned, delay);
    Joins(s, before, after, delay, 1, 0, now, last);
    steps := before + after;
  }

  lemma Exceeds(rule: Rule, delay: nat)
    requires rule.limit >= 2 && rule.window >= 0 && delay <= rule.retention < rule.window + 2 * delay
    ensures LongSpan(rule, delay) >= 0
    ensures rule.limit * (delay + 2) + rule.limit * (delay + 1) - 1 > MostInSpan(rule, LongSpan(rule, delay), delay)
    ensures rule.limit * (delay + 2) + rule.limit * (delay + 1) >= 3
  {
    LongSpanIsShort(rule, delay);
    var total, w := LongSpan(rule, delay) + delay, rule.window + 1;
    WholeWindows(total, w, 2 * delay + 1);
    MoreCallers(rule.limit, total / w, delay);
  }

  lemma LongSpanIsShort(rule: Rule, delay: nat)
    requires rule.window >= 0 && delay <= rule.retention < rule.window + 2 * delay
    ensures 0 <= LongSpan(rule, delay) && LongSpan(rule, delay) + delay <= (2 * delay + 1) * (rule.window + 1)
  {
    assert (2 * delay + 1) * (rule.window + 1) == 2 * (delay * rule.window) + rule.window + 2 * delay + 1;
  }

  lemma WholeWindows(total: nat, w: nat, k: nat)
    requires w > 0 && total <= k * w
    ensures total / w <= k && (total / w == k ==> total % w == 0)
  {
    var q := total / w;
    assert total == q * w + total % w && (k + 1) * w == k * w + w;
    if q > k {
      Products(w, k + 1, q);
    }
  }

  lemma MoreCallers(limit: int, q: nat, delay: nat)
    requires limit >= 2 && q <= 2 * delay + 1
    ensures limit * (q + 1) < limit * (delay + 2) + limit * (delay + 1) - 1 && limit * (delay + 2) + limit * (delay + 1) >= 3
    ensures q <= 2 * delay ==> limit * (q + 2) - 1 < limit * (delay + 2) + limit * (delay + 1) - 1
  {
    assert limit * (delay + 2) + limit * (delay + 1) == limit * (2 * delay + 3);
    Products(limit, q + 2, 2 * delay + 3);
    Products(limit, 3, 2 * delay + 3);
    assert limit * (q + 2) == limit * (q + 1) + limit;
    if q <= 2 * delay {
      Products(limit, q + 3, 2 * delay + 3);
      assert limit * (q + 3) == limit * (q + 2) + limit;
    }
  }
}
