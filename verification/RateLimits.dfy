/**
 Rate-limit buckets: a counter per fixed window, changed by single statements that compare and set. Times
 are in milliseconds.
 */
module RateLimits {
  import opened Options
  import opened TransferStates

  type BucketId = nat

  const MUTATION_ATTEMPTS := 8

  /** What one bucket is configured to. */
  datatype Rule = Rule(limit: int, window: Time, lock: Time, retention: Time)

  datatype Bucket = Bucket(id: BucketId, count: nat, windowStartedAt: Time, updatedAt: Time)

  predicate InWindow(b: Bucket, window: Time, now: Time) {
    b.windowStartedAt >= now - window
  }

  // ---------- answers ----------

  /** Rounded up to whole seconds. */
  function CeilSeconds(ms: Time): int {
    (ms + 999) / 1000
  }

  function RetryAfter(b: Bucket, window: Time, now: Time): int {
    var seconds := CeilSeconds(b.windowStartedAt + window - now);
    if seconds > 1 then seconds else 1
  }

  /** How long a lock still holds. */
  function LockedFor(b: Option<Bucket>, duration: Time, now: Time): int {
    if b.None? then 0
    else
      var seconds := CeilSeconds(b.value.windowStartedAt + duration - now);
      if seconds > 0 then seconds else 0
  }

  /** The lock holds exactly until its duration has passed, and the answer is the least number of seconds that is enough. */
  lemma LockedForIsLeast(b: Bucket, duration: Time, now: Time)
    ensures var r := LockedFor(Some(b), duration, now);
      && (r > 0 <==> now < b.windowStartedAt + duration)
      && now + r * 1000 >= b.windowStartedAt + duration
      && (r > 0 ==> now + (r - 1) * 1000 < b.windowStartedAt + duration)
  {
  }

  /**
   A refused caller who waits as long as told finds the window over, except when it ends after a whole
   number of seconds: the window includes its last millisecond.
   */
  lemma WaitingIsEnough(b: Bucket, window: Time, now: Time)
    requires InWindow(b, window, now)
    ensures !InWindow(b, window, now + RetryAfter(b, window, now) * 1000)
      <==> b.windowStartedAt + window == now || (b.windowStartedAt + window - now) % 1000 != 0
  {
  }

  datatype Outcome = Admitted | Refused(retryAfter: int) | GaveUp

  datatype Answer = Decision(outcome: Outcome) | Count(count: nat) | Seconds(seconds: int) | Done

  // ---------- the statements ----------

  /**
   One statement and the clock reading that its caller made before its first one. Resets and creations
   serve two kinds of callers: those who want to be admitted, and those who count a failure.
   */
  datatype Statement =
    | TryIncrement(now: Time)
    | Find(now: Time)
    | TryReset(seen: Bucket, failure: bool, now: Time)
    | TryCreate(id: BucketId, failure: bool, now: Time)
    | CountFailure(now: Time)
    | Activate(id: BucketId, now: Time)
    | ReadLock(now: Time)
    | DoPrune(now: Time)
    | DoClear(now: Time)

  function First(failure: bool): Answer {
    if failure then Count(1) else Decision(Admitted)
  }

  /** The answer that a statement decides, if it does, and the bucket it leaves. */
  function Effect(b: Option<Bucket>, rule: Rule, st: Statement): (Option<Answer>, Option<Bucket>) {
    match st
    case TryIncrement(now) =>
      if b.Some? && InWindow(b.value, rule.window, now) && b.value.count < rule.limit
      then (Some(Decision(Admitted)), Some(b.value.(count := b.value.count + 1, updatedAt := now))) else (None, b)
    case Find(now) =>
      if b.Some? && InWindow(b.value, rule.window, now) && b.value.count >= rule.limit
      then (Some(Decision(Refused(RetryAfter(b.value, rule.window, now)))), b) else (None, b)
    case TryReset(seen, failure, now) =>
      if b.Some? && b.value.id == seen.id && b.value.windowStartedAt == seen.windowStartedAt && !InWindow(seen, rule.window, now)
      then (Some(First(failure)), Some(Bucket(b.value.id, 1, now, now))) else (None, b)
    case TryCreate(id, failure, now) =>
      if b.None? then (Some(First(failure)), Some(Bucket(id, 1, now, now))) else (None, b)
    case CountFailure(now) =>
      if b.Some? && InWindow(b.value, rule.window, now)
      then (Some(Count(b.value.count + 1)), Some(b.value.(count := b.value.count + 1, updatedAt := now))) else (None, b)
    case Activate(id, now) => (Some(Done), Some(Bucket(if b.Some? then b.value.id else id, 1, now, now)))
    case ReadLock(now) => (Some(Seconds(LockedFor(b, rule.lock, now))), b)
    case DoPrune(now) => (None, if b.Some? && b.value.updatedAt < now - rule.retention then None else b)
    case DoClear(now) => (Some(Done), None)
  }

  predicate OfConsumer(st: Statement, now: Time) {
    && (st.TryIncrement? || st.Find? || (st.TryReset? && !st.failure) || (st.TryCreate? && !st.failure))
    && st.now == now
  }

  predicate OfFailure(st: Statement, now: Time) {
    && (st.CountFailure? || (st.TryReset? && st.failure) || (st.TryCreate? && st.failure))
    && st.now == now
  }

  // ---------- a caller ----------

  /** What a caller gets who meets nobody else. */
  function ConsumeAlone(b: Option<Bucket>, id: BucketId, rule: Rule, now: Time): (Outcome, Option<Bucket>) {
    if rule.limit <= 0 then (Admitted, b)
    else if b.None? then (Admitted, Some(Bucket(id, 1, now, now)))
    else if !InWindow(b.value, rule.window, now) then (Admitted, Some(Bucket(b.value.id, 1, now, now)))
    else if b.value.count < rule.limit then (Admitted, Some(b.value.(count := b.value.count + 1, updatedAt := now)))
    else (Refused(RetryAfter(b.value, rule.window, now)), b)
  }

  function FailuresWithThis(b: Option<Bucket>, window: Time, now: Time): nat {
    if b.Some? && InWindow(b.value, window, now) then b.value.count + 1 else 1
  }

  /**
   Alone, a caller is refused exactly while a full bucket's window lasts, its last millisecond included, and is
   told the least number of seconds that covers the rest of it. An admission is counted, in a new window if the
   old one is over.
   */
  lemma AloneIs(b: Option<Bucket>, id: BucketId, rule: Rule, now: Time)
    requires rule.limit > 0
    ensures var (r, end) := ConsumeAlone(b, id, rule, now);
      var lasts := b.Some? && now <= b.value.windowStartedAt + rule.window;
      if lasts && b.value.count >= rule.limit then
        && end == b && r.Refused? && r.retryAfter >= 1
        && b.value.windowStartedAt + rule.window - now <= 1000 * r.retryAfter
        && (r.retryAfter > 1 ==> 1000 * (r.retryAfter - 1) < b.value.windowStartedAt + rule.window - now)
      else
        && r == Admitted && end.Some? && end.value.updatedAt == now && end.value.id == (if b.Some? then b.value.id else id)
        && end.value.count == (if lasts then b.value.count + 1 else 1)
        && end.value.windowStartedAt == if lasts then b.value.windowStartedAt else now
    ensures FailuresWithThis(b, rule.window, now) == if b.Some? && now <= b.value.windowStartedAt + rule.window then b.value.count + 1 else 1
  {
  }

  /** A statement as it ran: the bucket it met and what it was. */
  datatype Ran = Ran(met: Option<Bucket>, st: Statement)

  /** Of the statements in `trace` only the last one decided something, and that was `answer`. */
  predicate DecidedLast(trace: seq<Ran>, rule: Rule, answer: Answer) {
    && |trace| > 0
    && Effect(trace[|trace| - 1].met, rule, trace[|trace| - 1].st).0 == Some(answer)
    && Undecided(trace[..|trace| - 1], rule)
  }

  predicate Undecided(trace: seq<Ran>, rule: Rule) {
    forall i :: 0 <= i < |trace| ==> Effect(trace[i].met, rule, trace[i].st).0.None?
  }

  class BucketStore {
    const rule: Rule
    var bucket: Option<Bucket>

    constructor (rule: Rule)
      ensures bucket == None && this.rule == rule
    {
      this.rule := rule;
      bucket := None;
    }

    method IncrementIfLive(now: Time) returns (hit: bool)
      modifies this`bucket
      ensures bucket == Effect(old(bucket), rule, TryIncrement(now)).1
      ensures hit <==> Effect(old(bucket), rule, TryIncrement(now)).0.Some?
    {
      if bucket.None? {
        return false;
      }
      var current := bucket.value;
      if current.windowStartedAt < now - rule.window || current.count >= rule.limit {
        return false;
      }
      bucket := Some(current.(count := current.count + 1, updatedAt := now));
      return true;
    }

    method CountIfLive(now: Time) returns (count: Option<nat>)
      modifies this`bucket
      ensures bucket == Effect(old(bucket), rule, CountFailure(now)).1
      ensures Effect(old(bucket), rule, CountFailure(now)).0 == if count.Some? then Some(Count(count.value)) else None
    {
      if bucket.None? || bucket.value.windowStartedAt < now - rule.window {
        return None;
      }
      bucket := Some(bucket.value.(count := bucket.value.count + 1, updatedAt := now));
      return Some(bucket.value.count);
    }

    method ResetIfUnchanged(seen: Bucket, failure: bool, now: Time) returns (hit: bool)
      requires !InWindow(seen, rule.window, now)
      modifies this`bucket
      ensures bucket == Effect(old(bucket), rule, TryReset(seen, failure, now)).1
      ensures hit <==> Effect(old(bucket), rule, TryReset(seen, failure, now)).0.Some?
    {
      if bucket.None? || bucket.value.id != seen.id || bucket.value.windowStartedAt != seen.windowStartedAt {
        return false;
      }
      bucket := Some(bucket.value.(count := 1, windowStartedAt := now, updatedAt := now));
      return true;
    }

    method CreateIfAbsent(id: BucketId, failure: bool, now: Time) returns (hit: bool)
      modifies this`bucket
      ensures bucket == Effect(old(bucket), rule, TryCreate(id, failure, now)).1
      ensures hit <==> Effect(old(bucket), rule, TryCreate(id, failure, now)).0.Some?
    {
      if bucket.Some? {
        return false;
      }
      bucket := Some(Bucket(id, 1, now, now));
      return true;
    }

    /** Whatever other callers do between two statements of this one. */
    method LetOthersRun(others: bool)
      modifies this`bucket
      ensures !others ==> bucket == old(bucket)
    {
      if others {
        bucket := *;
      }
    }

    /** The second half of an attempt: the bucket that was seen is out of its window, or there was none. */
    method StartWindow(current: Option<Bucket>, id: BucketId, failure: bool, now: Time) returns (hit: bool, ghost ran: Ran)
      requires current.Some? ==> !InWindow(current.value, rule.window, now)
      modifies this`bucket
      ensures ran == Ran(old(bucket), if current.Some? then TryReset(current.value, failure, now) else TryCreate(id, failure, now))
      ensures bucket == Effect(old(bucket), rule, ran.st).1
      ensures Effect(old(bucket), rule, ran.st).0 == if hit then Some(First(failure)) else None
    {
      if current.Some? {
        ran := Ran(bucket, TryReset(current.value, failure, now));
        hit := ResetIfUnchanged(current.value, failure, now);
      } else {
        ran := Ran(bucket, TryCreate(id, failure, now));
        hit := CreateIfAbsent(id, failure, now);
      }
    }

    /**
     The retry loop, with other callers coming in after every statement if `others`. The answer is the one
     that the last statement decides by itself, and none of the earlier ones decided anything; a caller
     whose eight attempts are exhausted is never admitted, and is refused for as long as a bucket in its window
     that it then finds will last.
     */
    method Consume(id: BucketId, now: Time, others: bool) returns (r: Outcome, exhausted: bool, ghost trace: seq<Ran>)
      modifies this`bucket
      ensures forall i :: 0 <= i < |trace| ==> OfConsumer(trace[i].st, now)
      ensures rule.limit <= 0 ==> r == Admitted && !exhausted && bucket == old(bucket)
      ensures rule.limit > 0 && !exhausted ==> DecidedLast(trace, rule, Decision(r))
      ensures exhausted ==> Undecided(trace, rule) && r != Admitted && |trace| >= 8 * 2
      ensures |trace| <= 8 * 3
      ensures exhausted && r.Refused? ==> bucket.Some? && InWindow(bucket.value, rule.window, now)
      ensures exhausted && r.Refused? ==> r.retryAfter == RetryAfter(bucket.value, rule.window, now)
      ensures exhausted && r.GaveUp? ==> bucket.None? || !InWindow(bucket.value, rule.window, now)
      ensures !others ==> !exhausted && (r, bucket) == ConsumeAlone(old(bucket), id, rule, now)
    {
      trace := [];
      exhausted := false;
      if rule.limit <= 0 {
        return Admitted, false, trace;
      }
      var attempt := 0;
      while attempt < MUTATION_ATTEMPTS
        invariant Undecided(trace, rule)
        invariant forall i :: 0 <= i < |trace| ==> OfConsumer(trace[i].st, now)
        invariant attempt <= MUTATION_ATTEMPTS && 2 * attempt <= |trace| <= 3 * attempt
        invariant !others ==> attempt == 0 && bucket == old(bucket)
      {
        trace := trace + [Ran(bucket, TryIncrement(now))];
        var hit := IncrementIfLive(now);
        if hit {
          return Admitted, false, trace;
        }
        LetOthersRun(others);
        var current := bucket;
        trace := trace + [Ran(bucket, Find(now))];
        attempt := attempt + 1;
        LetOthersRun(others);
        if current.Some? && InWindow(current.value, rule.window, now) {
          if current.value.count < rule.limit {
            continue;
          }
          return Refused(RetryAfter(current.value, rule.window, now)), false, trace;
        }
        ghost var ran;
        hit, ran := StartWindow(current, id, false, now);
        trace := trace + [ran];
        if hit {
          return Admitted, false, trace;
        }
        LetOthersRun(others);
      }
      if bucket.Some? && InWindow(bucket.value, rule.window, now) {
        return Refused(RetryAfter(bucket.value, rule.window, now)), true, trace;
      }
      return GaveUp, true, trace;
    }

    /** Counts a failure whatever the count is already. */
    method Increment(id: BucketId, now: Time, others: bool) returns (count: Option<nat>, ghost trace: seq<Ran>)
      modifies this`bucket
      ensures forall i :: 0 <= i < |trace| ==> OfFailure(trace[i].st, now)
      ensures count.Some? ==> DecidedLast(trace, rule, Count(count.value))
      ensures count.None? ==> Undecided(trace, rule) && |trace| >= 8
      ensures |trace| <= 8 * 2
      ensures !others ==> count == Some(FailuresWithThis(old(bucket), rule.window, now))
    {
      trace := [];
      var attempt := 0;
      while attempt < MUTATION_ATTEMPTS
        invariant Undecided(trace, rule)
        invariant forall i :: 0 <= i < |trace| ==> OfFailure(trace[i].st, now)
        invariant attempt <= MUTATION_ATTEMPTS && attempt <= |trace| <= 2 * attempt
        invariant !others ==> attempt == 0 && bucket == old(bucket)
      {
        trace := trace + [Ran(bucket, CountFailure(now))];
        count := CountIfLive(now);
        if count.Some? {
          return count, trace;
        }
        LetOthersRun(others);
        var current := bucket;
        attempt := attempt + 1;
        LetOthersRun(others);
        if current.Some? && InWindow(current.value, rule.window, now) {
          continue;
        }
        var hit;
        ghost var ran;
        hit, ran := StartWindow(current, id, true, now);
        trace := trace + [ran];
        if hit {
          return Some(1), trace;
        }
        LetOthersRun(others);
      }
      return None, trace;
    }

    /** From now on the lock holds for its duration, to the millisecond. */
    method ActivateLock(id: BucketId, now: Time)
      modifies this`bucket
      ensures bucket == Effect(old(bucket), rule, Activate(id, now)).1
      ensures forall t :: LockedFor(bucket, rule.lock, t) > 0 <==> t < now + rule.lock
    {
      bucket := Some(Bucket(if bucket.Some? then bucket.value.id else id, 1, now, now));
    }

    /** The statement of the pruning, as the state machine has it; its effect on whole runs is shown there. */
    method Prune(now: Time)
      modifies this`bucket
      ensures bucket == Effect(old(bucket), rule, DoPrune(now)).1
    {
      if bucket.Some? && bucket.value.updatedAt < now - rule.retention {
        bucket := None;
      }
    }

    /** The statement that forgets the failures counted so far, as the state machine has it. */
    method Clear(now: Time)
      modifies this`bucket
      ensures bucket == Effect(old(bucket), rule, DoClear(now)).1
    {
      bucket := None;
    }
  }
}
