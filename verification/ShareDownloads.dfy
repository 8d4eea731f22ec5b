/** Runs of concurrent visitors who claim and commit the download intents of one share. */
module ShareDownloads {
  import opened Options
  import opened TransferStates
  import opened DownloadIntents

  const DAY_MS: Time := 86_400_000

  /** `maxDownloads` is fixed when the share is made; zero means no limit. */
  datatype Share = Share(createdAt: Time, expiresDays: int, revokedAt: Option<Time>)

  function AtLeastZero(n: int): nat {
    if n > 0 then n else 0
  }

  function ExpiryOf(share: Share): Time {
    share.createdAt + AtLeastZero(share.expiresDays) * DAY_MS
  }

  function RemainingDownloads(maxDownloads: nat, downloadCount: nat): Option<nat> {
    if maxDownloads > 0 then Some(AtLeastZero(maxDownloads - downloadCount)) else None
  }

  datatype Commit = Commit(id: IntentId, token: Token, at: Time)

  /** `started` are the download_started events, `log` all commits, `drawn` the ids given out so far. */
  datatype System = System(
    share: Option<Share>,
    maxDownloads: nat,
    intents: map<IntentId, Intent>,
    drawn: map<IntentId, Purpose>,
    nextToken: Token,
    started: seq<IntentId>,
    log: seq<Commit>)

  datatype Step =
    | Create(id: IntentId, nodeId: nat, purpose: Purpose, expiresAt: Time, now: Time)
    | Claim(id: IntentId, seen: Intent, nodeId: nat, visitorMatches: bool, now: Time)
    | CommitClaim(id: IntentId, nodeId: nat, token: Token, visitorMatches: bool, now: Time)
    | ClearClaim(id: IntentId, nodeId: nat, token: Token, failure: Option<FailureCode>, now: Time)
    | Revoke(now: Time)
    | RemoveShare(now: Time)
    | Prune(now: Time)

  function ClaimStep(s: System, id: IntentId, seen: Intent, nodeId: nat, visitorMatches: bool, now: Time): System {
    if !Usable(seen, nodeId, visitorMatches, now) then s
    else
      var tx := if id in s.intents then ClaimTx(s.intents[id], seen, s.nextToken, now) else None;
      if tx.None? then s.(nextToken := s.nextToken + 1)
      else s.(intents := s.intents[id := tx.value], nextToken := s.nextToken + 1)
  }

  /** One serializable transaction: the share is checked, the events are counted, the intent is used up. */
  function CommitStep(s: System, id: IntentId, nodeId: nat, token: Token, visitorMatches: bool, now: Time): System {
    if s.share.None? || s.share.value.revokedAt.Some? || ExpiryOf(s.share.value) <= now then s
    else if id !in s.intents || !visitorMatches then s
    else
      var tx := CommitTx(s.intents[id], nodeId, token, now);
      if tx.None? then s
      else if s.intents[id].purpose == Download && RemainingDownloads(s.maxDownloads, |s.started|) == Some(0) then s
      else s.(intents := s.intents[id := tx.value],
              started := if s.intents[id].purpose == Download then s.started + [id] else s.started,
              log := s.log + [Commit(id, token, now)])
  }

  function Apply(s: System, step: Step): System {
    match step
    case Create(id, nodeId, purpose, expiresAt, now) =>
      if id in s.drawn then s
      else s.(intents := s.intents[id := NewIntent(nodeId, purpose, expiresAt, now)], drawn := s.drawn[id := purpose])
    case Claim(id, seen, nodeId, visitorMatches, now) => ClaimStep(s, id, seen, nodeId, visitorMatches, now)
    case CommitClaim(id, nodeId, token, visitorMatches, now) => CommitStep(s, id, nodeId, token, visitorMatches, now)
    case ClearClaim(id, nodeId, token, failure, now) =>
      if id in s.intents && ClearTx(s.intents[id], nodeId, token, failure, now).Some?
      then s.(intents := s.intents[id := ClearTx(s.intents[id], nodeId, token, failure, now).value]) else s
    case Revoke(now) =>
      if s.share.Some? && s.share.value.revokedAt.None? then s.(share := Some(s.share.value.(revokedAt := Some(now)))) else s
    case RemoveShare(_) => s.(share := None)
    case Prune(now) => s.(intents := Unexpired(s.intents, now))
  }

  function Run(s: System, steps: seq<Step>): System
    decreases |steps|
  {
    if steps == [] then s else Run(Apply(s, steps[0]), steps[1..])
  }

  predicate Initial(s: System) {
    s.intents == map[] && s.drawn == map[] && s.started == [] && s.log == []
  }

  // ---------- what every run keeps ----------

  function CommitsOf(log: seq<Commit>, id: IntentId): nat {
    if log == [] then 0 else CommitsOf(log[..|log| - 1], id) + if log[|log| - 1].id == id then 1 else 0
  }

  predicate RowOk(s: System, id: IntentId)
    requires id in s.intents
  {
    var row := s.intents[id];
    && id in s.drawn && s.drawn[id] == row.purpose
    && row.useCount == CommitsOf(s.log, id)
    && (row.consumedAt.Some? <==> row.purpose == Download && row.useCount > 0)
    && (row.claimToken.Some? ==> row.claimToken.value < s.nextToken)
  }

  ghost predicate CountsOk(s: System) {
    && (s.maxDownloads > 0 ==> |s.started| <= s.maxDownloads)
    && forall id: IntentId :: CommitsOf(s.log, id) <= if id in s.drawn then UseLimit(s.drawn[id]) else 0
  }

  /** A token that has committed is on no row any more, and no two rows or commits share one. */
  predicate TokensOk(s: System) {
    && (forall i :: 0 <= i < |s.log| ==> s.log[i].token < s.nextToken)
    && (forall i, j :: 0 <= i < j < |s.log| ==> s.log[i].token != s.log[j].token)
    && (forall i, id :: 0 <= i < |s.log| && id in s.intents ==> s.intents[id].claimToken != Some(s.log[i].token))
    && (forall a, b :: a in s.intents && b in s.intents && a != b && s.intents[a].claimToken.Some? ==>
          s.intents[a].claimToken != s.intents[b].claimToken)
  }

  ghost predicate Inv(s: System) {
    && (forall id :: id in s.intents ==> RowOk(s, id))
    && CountsOk(s) && TokensOk(s)
  }

  lemma CommitAppends(log: seq<Commit>, c: Commit, id: IntentId)
    ensures CommitsOf(log + [c], id) == CommitsOf(log, id) + if c.id == id then 1 else 0
  {
    assert (log + [c])[..|log|] == log;
  }

  lemma CommitKeepsInv(s: System, step: Step)
    requires Inv(s) && step.CommitClaim?
    ensures Inv(Apply(s, step))
  {
    var after := Apply(s, step);
    if after.log != s.log {
      var c := Commit(step.id, step.token, step.now);
      forall id: IntentId ensures CommitsOf(after.log, id) == CommitsOf(s.log, id) + if step.id == id then 1 else 0 {
        CommitAppends(s.log, c, id);
      }
      assert RowOk(s, step.id);
      CommitKeepsTokens(s, step);
      forall id | id in after.intents ensures RowOk(after, id) {
        assert RowOk(s, id);
      }
    }
  }

  lemma CommitKeepsTokens(s: System, step: Step)
    requires Inv(s) && step.CommitClaim? && Apply(s, step).log != s.log
    ensures TokensOk(Apply(s, step))
  {
    var after := Apply(s, step);
    assert s.intents[step.id].claimToken == Some(step.token);
    assert RowOk(s, step.id);
    forall i | 0 <= i < |s.log| ensures s.log[i].token != step.token {
      assert s.intents[step.id].claimToken != Some(s.log[i].token);
    }
  }

  lemma ClaimKeepsRows(s: System, step: Step)
    requires (forall id :: id in s.intents ==> RowOk(s, id)) && step.Claim?
    ensures var after := Apply(s, step); forall id :: id in after.intents ==> RowOk(after, id)
    ensures forall id :: id in s.intents ==> s.intents[id].claimToken != Some(s.nextToken)
  {
    var after := Apply(s, step);
    forall id | id in after.intents ensures RowOk(after, id) {
      assert RowOk(s, id);
    }
    forall id | id in s.intents ensures s.intents[id].claimToken != Some(s.nextToken) {
      assert RowOk(s, id);
    }
  }

  lemma ClaimKeepsTokens(s: System, step: Step)
    requires TokensOk(s) && step.Claim? && forall id :: id in s.intents ==> s.intents[id].claimToken != Some(s.nextToken)
    ensures TokensOk(Apply(s, step))
  {
  }

  lemma ClaimKeepsInv(s: System, step: Step)
    requires Inv(s) && step.Claim?
    ensures Inv(Apply(s, step))
  {
    ClaimKeepsRows(s, step);
    ClaimKeepsTokens(s, step);
  }

  lemma CreateKeepsInv(s: System, step: Step)
    requires Inv(s) && step.Create?
    ensures Inv(Apply(s, step))
  {
    var after := Apply(s, step);
    if after != s {
      assert CommitsOf(s.log, step.id) == 0;
      forall id | id in after.intents ensures RowOk(after, id) {
        assert id in s.intents ==> RowOk(s, id);
      }
    }
  }

  lemma ClearKeepsInv(s: System, step: Step)
    requires Inv(s) && step.ClearClaim?
    ensures Inv(Apply(s, step))
  {
    var after := Apply(s, step);
    if after != s {
      forall id | id in after.intents ensures RowOk(after, id) {
        assert RowOk(s, id);
      }
    }
  }

  lemma QuietKeepsInv(s: System, step: Step)
    requires Inv(s) && (step.Revoke? || step.RemoveShare? || step.Prune?)
    ensures Inv(Apply(s, step))
  {
    var after := Apply(s, step);
    forall id | id in after.intents ensures RowOk(after, id) {
      assert RowOk(s, id);
    }
  }

  lemma StepKeepsInv(s: System, step: Step)
    requires Inv(s)
    ensures Inv(Apply(s, step))
  {
    if step.Claim? {
      ClaimKeepsInv(s, step);
    } else if step.CommitClaim? {
      CommitKeepsInv(s, step);
    } else if step.Create? {
      CreateKeepsInv(s, step);
    } else if step.ClearClaim? {
      ClearKeepsInv(s, step);
    } else {
      QuietKeepsInv(s, step);
    }
  }

  lemma {:induction false} RunKeepsInv(s: System, steps: seq<Step>)
    requires Inv(s)
    ensures Inv(Run(s, steps)) && Run(s, steps).maxDownloads == s.maxDownloads
    decreases |steps|
  {
    if steps != [] {
      StepKeepsInv(s, steps[0]);
      RunKeepsInv(Apply(s, steps[0]), steps[1..]);
    }
  }

  // ---------- the limits ----------

  /** However many visitors race, no more downloads start than the share allows. */
  lemma DownloadsStayBelowLimit(s: System, steps: seq<Step>)
    requires Initial(s) && s.maxDownloads > 0
    ensures |Run(s, steps).started| <= s.maxDownloads
  {
    RunKeepsInv(s, steps);
  }

  /** A download intent commits once at most, a preview intent 64 times, also counting rows that were pruned since. */
  lemma IntentsCommitWithinLimit(s: System, steps: seq<Step>, id: IntentId)
    requires Initial(s)
    ensures var end := Run(s, steps);
      && (id !in end.drawn ==> CommitsOf(end.log, id) == 0)
      && (id in end.drawn && end.drawn[id] == Download ==> CommitsOf(end.log, id) <= 1)
      && (id in end.drawn && end.drawn[id] == Preview ==> CommitsOf(end.log, id) <= 64)
  {
    RunKeepsInv(s, steps);
  }

  /** One claim pays for one commit. */
  lemma ClaimCommitsAtMostOnce(s: System, steps: seq<Step>, i: nat, j: nat)
    requires Initial(s) && i < |Run(s, steps).log| && j < |Run(s, steps).log|
    requires Run(s, steps).log[i].token == Run(s, steps).log[j].token
    ensures i == j
  {
    RunKeepsInv(s, steps);
  }

  lemma {:induction false} RevokedStaysRevoked(s: System, steps: seq<Step>)
    requires s.share.None? || s.share.value.revokedAt.Some?
    ensures Run(s, steps).log == s.log && Run(s, steps).started == s.started
    decreases |steps|
  {
    if steps != [] {
      RevokedStaysRevoked(Apply(s, steps[0]), steps[1..]);
    }
  }

  /** After a revocation nothing commits any more, whoever holds a claim. */
  lemma NothingCommitsAfterRevocation(s: System, steps: seq<Step>, now: Time)
    ensures Run(Apply(s, Revoke(now)), steps).log == s.log
  {
    RevokedStaysRevoked(Apply(s, Revoke(now)), steps);
  }

  /** Every commit happened before the share's deadline. */
  lemma {:induction false} CommitsAreInTime(s: System, steps: seq<Step>, i: nat)
    requires s.share.Some? && |s.log| <= i < |Run(s, steps).log|
    ensures var share := s.share.value;
      Run(s, steps).log[i].at < share.createdAt + (if share.expiresDays > 0 then share.expiresDays else 0) * 86_400_000
    decreases |steps|
  {
    if steps != [] {
      var next := Apply(s, steps[0]);
      if next.share.None? {
        RevokedStaysRevoked(next, steps[1..]);
      } else if i < |next.log| {
        LogOnlyGrows(next, steps[1..]);
      } else {
        CommitsAreInTime(next, steps[1..], i);
      }
    }
  }

  lemma {:induction false} LogOnlyGrows(s: System, steps: seq<Step>)
    ensures s.log <= Run(s, steps).log
    decreases |steps|
  {
    if steps != [] {
      LogOnlyGrows(Apply(s, steps[0]), steps[1..]);
    }
  }

  function Clock(step: Step): Time {
    step.now
  }

  lemma {:induction false} NothingCommitsAfterExpiry(s: System, steps: seq<Step>, expiry: Time)
    requires s.share.Some? ==> ExpiryOf(s.share.value) <= expiry
    requires forall i :: 0 <= i < |steps| ==> Clock(steps[i]) >= expiry
    ensures Run(s, steps).log == s.log
    decreases |steps|
  {
    if steps != [] {
      assert Clock(steps[0]) >= expiry;
      assert forall i :: 0 <= i < |steps[1..]| ==> steps[1..][i] == steps[i + 1];
      NothingCommitsAfterExpiry(Apply(s, steps[0]), steps[1..], expiry);
    }
  }

  // ---------- the lease ----------

  /** A claim that is younger than 30 seconds is only ended by whoever has its token, or together with its row. */
  lemma LeaseExcludesOthers(s: System, step: Step, id: IntentId)
    requires id in s.intents && s.intents[id].claimToken.Some? && id in Apply(s, step).intents
    requires s.intents[id].claimedAt.Some? && Clock(step) < s.intents[id].claimedAt.value + 30 * 1000
    requires (step.CommitClaim? || step.ClearClaim?) ==> Some(step.token) != s.intents[id].claimToken
    requires step.Create? ==> id in s.drawn
    ensures Apply(s, step).intents[id] == s.intents[id]
  {
  }

  /** So the holder can count on its row, whatever others do in the meantime, for as long as the row exists. */
  lemma {:induction false} LeaseHolds(s: System, steps: seq<Step>, id: IntentId)
    requires Inv(s) && id in s.intents && s.intents[id].claimToken.Some? && s.intents[id].claimedAt.Some?
    requires forall i :: 0 <= i < |steps| ==> KeepsOff(steps[i], s.intents[id])
    requires id in Run(s, steps).intents
    ensures Run(s, steps).intents[id] == s.intents[id]
    decreases |steps|
  {
    if steps != [] {
      var next := Apply(s, steps[0]);
      assert RowOk(s, id) && KeepsOff(steps[0], s.intents[id]);
      assert forall i :: 0 <= i < |steps[1..]| ==> steps[1..][i] == steps[i + 1];
      StepKeepsInv(s, steps[0]);
      RowsDoNotReturn(s, steps[0], steps[1..], id);
      LeaseExcludesOthers(s, steps[0], id);
      LeaseHolds(next, steps[1..], id);
    }
  }

  /** Within the lease of `row`, and without its token. */
  predicate KeepsOff(step: Step, row: Intent) {
    && row.claimedAt.Some? && Clock(step) < row.claimedAt.value + 30 * 1000
    && ((step.CommitClaim? || step.ClearClaim?) ==> Some(step.token) != row.claimToken)
  }

  /** A token that is on no row any more, because it was given back, used up or taken over. */
  predicate Lost(s: System, token: Token) {
    token < s.nextToken && forall id :: id in s.intents ==> s.intents[id].claimToken != Some(token)
  }

  lemma LostStaysLost(s: System, step: Step, token: Token)
    requires Lost(s, token)
    ensures Lost(Apply(s, step), token)
    ensures var log := Apply(s, step).log;
      forall i :: |s.log| <= i < |log| ==> log[i].token != token
  {
  }

  /** Such a token commits nothing again, in any continuation. */
  lemma {:induction false} LostTokenIsInert(s: System, steps: seq<Step>, token: Token, i: nat)
    requires Lost(s, token) && |s.log| <= i < |Run(s, steps).log|
    ensures Run(s, steps).log[i].token != token
    decreases |steps|
  {
    if steps != [] {
      var next := Apply(s, steps[0]);
      LostStaysLost(s, steps[0], token);
      if i < |next.log| {
        LogOnlyGrows(next, steps[1..]);
      } else {
        LostTokenIsInert(next, steps[1..], token, i);
      }
    }
  }

  // ---------- pruning ----------

  function Unpruned(steps: seq<Step>): seq<Step>
    decreases |steps|
  {
    if steps == [] then [] else (if steps[0].Prune? then [] else [steps[0]]) + Unpruned(steps[1..])
  }

  /** No step carries a clock older than a pruning before it. */
  predicate PrunesAreOld(steps: seq<Step>, pruned: Time)
    decreases |steps|
  {
    steps != [] ==>
      && Clock(steps[0]) >= pruned
      && PrunesAreOld(steps[1..], if steps[0].Prune? then Clock(steps[0]) else pruned)
  }

  /** The rows that are missing on the left are past their deadline. */
  predicate Alike(s: System, t: System, pruned: Time) {
    && t == s.(intents := t.intents)
    && (forall id :: id in s.intents ==> id in t.intents && t.intents[id] == s.intents[id])
    && (forall id :: id in t.intents && id !in s.intents ==> t.intents[id].expiresAt <= pruned && id in t.drawn)
  }

  lemma ClaimsStayAlike(s: System, t: System, step: Step, pruned: Time)
    requires Alike(s, t, pruned) && Clock(step) >= pruned && (step.Claim? || step.Create?)
    ensures Alike(Apply(s, step), Apply(t, step), pruned)
  {
  }

  lemma StepsStayAlike(s: System, t: System, step: Step, pruned: Time)
    requires Alike(s, t, pruned) && Clock(step) >= pruned && !step.Prune?
    ensures Alike(Apply(s, step), Apply(t, step), pruned)
  {
    if step.Claim? || step.Create? {
      ClaimsStayAlike(s, t, step, pruned);
    }
  }

  lemma PruneStaysAlike(s: System, t: System, step: Step, pruned: Time)
    requires Alike(s, t, pruned) && Clock(step) >= pruned && step.Prune? && Inv(s)
    ensures Alike(Apply(s, step), t, Clock(step))
  {
    forall id | id in s.intents ensures id in s.drawn {
      assert RowOk(s, id);
    }
  }

  lemma {:induction false} RunsStayAlike(s: System, t: System, steps: seq<Step>, pruned: Time) returns (last: Time)
    requires Alike(s, t, pruned) && PrunesAreOld(steps, pruned) && Inv(s)
    ensures Alike(Run(s, steps), Run(t, Unpruned(steps)), last)
    decreases |steps|
  {
    if steps == [] {
      last := pruned;
    } else {
      StepKeepsInv(s, steps[0]);
      if steps[0].Prune? {
        PruneStaysAlike(s, t, steps[0], pruned);
        last := RunsStayAlike(Apply(s, steps[0]), t, steps[1..], Clock(steps[0]));
        assert Unpruned(steps) == Unpruned(steps[1..]);
      } else {
        StepsStayAlike(s, t, steps[0], pruned);
        last := RunsStayAlike(Apply(s, steps[0]), Apply(t, steps[0]), steps[1..], pruned);
        assert Unpruned(steps)[1..] == Unpruned(steps[1..]);
      }
    }
  }

  /** The same visitors claim, commit and are refused as if expired rows had never been pruned. */
  lemma PruningHidesNothing(s: System, steps: seq<Step>, pruned: Time)
    requires Initial(s) && PrunesAreOld(steps, pruned)
    ensures var with, without := Run(s, steps), Run(s, Unpruned(steps));
      && with.log == without.log && with.started == without.started && with.nextToken == without.nextToken
      && forall id :: id in with.intents ==> id in without.intents && without.intents[id] == with.intents[id]
  {
    var _ := RunsStayAlike(s, s, steps, pruned);
  }

  // ---------- what a reader is told ----------

  lemma StepIsLater(s: System, step: Step, id: IntentId)
    requires Inv(s) && id in s.intents && id in Apply(s, step).intents
    ensures Later(s.intents[id], Apply(s, step).intents[id])
  {
    assert RowOk(s, id);
  }

  lemma {:induction false} RunIsLater(s: System, steps: seq<Step>, id: IntentId)
    requires Inv(s) && id in s.intents && id in Run(s, steps).intents
    ensures Later(s.intents[id], Run(s, steps).intents[id])
    decreases |steps|
  {
    if steps != [] {
      StepKeepsInv(s, steps[0]);
      RowsDoNotReturn(s, steps[0], steps[1..], id);
      StepIsLater(s, steps[0], id);
      RunIsLater(Apply(s, steps[0]), steps[1..], id);
    }
  }

  lemma {:induction false} GoneStaysGone(s: System, steps: seq<Step>, id: IntentId)
    requires id in s.drawn && id !in s.intents
    ensures id !in Run(s, steps).intents
    decreases |steps|
  {
    if steps != [] {
      GoneStaysGone(Apply(s, steps[0]), steps[1..], id);
    }
  }

  lemma RowsDoNotReturn(s: System, step: Step, rest: seq<Step>, id: IntentId)
    requires Inv(s) && id in s.intents && id in Run(Apply(s, step), rest).intents
    ensures id in Apply(s, step).intents
  {
    assert RowOk(s, id);
    if id !in Apply(s, step).intents {
      GoneStaysGone(Apply(s, step), rest, id);
    }
  }

  lemma UsedUp(s: System, id: IntentId)
    requires Inv(s) && id in s.intents
    ensures s.intents[id].useCount == CommitsOf(s.log, id) <= UseLimit(s.intents[id].purpose)
    ensures IsCompleted(s.intents[id]) <==> CommitsOf(s.log, id) == UseLimit(s.intents[id].purpose)
  {
    assert RowOk(s, id);
    assert CommitsOf(s.log, id) <= UseLimit(s.drawn[id]);
  }

  /** A reader is told "completed" exactly when the commits of the intent have used it up, whatever the clock says. */
  lemma CompletedIffUsedUp(s: System, steps: seq<Step>, id: IntentId, now: Time)
    requires Initial(s) && id in Run(s, steps).intents
    ensures var end := Run(s, steps);
      Reported(end.intents[id], now) == Completed <==> CommitsOf(end.log, id) == UseLimit(end.intents[id].purpose)
  {
    RunKeepsInv(s, steps);
    UsedUp(Run(s, steps), id);
  }

  /** "Completed" is never taken back, in any continuation and by any clocks, for as long as the row exists. */
  lemma CompletedIsFinal(s: System, steps: seq<Step>, more: seq<Step>, id: IntentId, now: Time, later: Time)
    requires Initial(s) && id in Run(s, steps).intents && id in Run(Run(s, steps), more).intents
    requires Reported(Run(s, steps).intents[id], now) == Completed
    ensures Reported(Run(Run(s, steps), more).intents[id], later) == Completed
  {
    RunKeepsInv(s, steps);
    RunIsLater(Run(s, steps), more, id);
    FinalReports(Run(s, steps).intents[id], Run(Run(s, steps), more).intents[id], now, later);
  }

  lemma CommitIsBeforeDeadline(s: System, step: Step, id: IntentId)
    requires id in s.intents
    ensures s.log <= Apply(s, step).log
    ensures var log := Apply(s, step).log;
      forall i :: |s.log| <= i < |log| && log[i].id == id ==> log[i].at < s.intents[id].expiresAt
  {
  }

  /** The commits of an intent that a run adds, each within the intent's deadline. */
  lemma {:induction false} CommitsAreBeforeDeadline(s: System, steps: seq<Step>, id: IntentId, i: nat)
    requires Inv(s) && id in s.intents && id in Run(s, steps).intents
    requires |s.log| <= i < |Run(s, steps).log| && Run(s, steps).log[i].id == id
    ensures Run(s, steps).log[i].at < s.intents[id].expiresAt
    decreases |steps|
  {
    if steps != [] {
      var next := Apply(s, steps[0]);
      StepKeepsInv(s, steps[0]);
      RowsDoNotReturn(s, steps[0], steps[1..], id);
      StepIsLater(s, steps[0], id);
      if i < |next.log| {
        CommitIsBeforeDeadline(s, steps[0], id);
        LogOnlyGrows(next, steps[1..]);
        assert next.log[i] == Run(s, steps).log[i];
      } else {
        CommitsAreBeforeDeadline(next, steps[1..], id, i);
      }
    }
  }

  /**
   "Expired" is taken back exactly when the later steps commit the intent until it is used up, and each of
   those commits has read its clock before the intent's deadline, and so before the report.
   */
  lemma ExpiryIsTakenBackIff(s: System, steps: seq<Step>, more: seq<Step>, id: IntentId, now: Time, later: Time)
    requires Initial(s) && id in Run(s, steps).intents && id in Run(Run(s, steps), more).intents && now <= later
    requires Reported(Run(s, steps).intents[id], now) == Expired
    ensures var mid, end := Run(s, steps), Run(Run(s, steps), more);
      && Reported(end.intents[id], later) in {Completed, Expired}
      && (Reported(end.intents[id], later) == Completed <==>
            CommitsOf(end.log, id) - CommitsOf(mid.log, id) == UseLimit(mid.intents[id].purpose) - mid.intents[id].useCount)
      && forall i :: |mid.log| <= i < |end.log| && end.log[i].id == id ==> end.log[i].at < mid.intents[id].expiresAt <= now
  {
    var mid, end := Run(s, steps), Run(Run(s, steps), more);
    RunKeepsInv(s, steps);
    EndsOnceUsedUp(mid, more, id, now, later);
    forall i | |mid.log| <= i < |end.log| && end.log[i].id == id ensures end.log[i].at < mid.intents[id].expiresAt {
      CommitsAreBeforeDeadline(mid, more, id, i);
    }
  }

  lemma EndsOnceUsedUp(s: System, more: seq<Step>, id: IntentId, now: Time, later: Time)
    requires Inv(s) && id in s.intents && id in Run(s, more).intents && now <= later && Reported(s.intents[id], now) == Expired
    ensures var row, end := s.intents[id], Run(s, more);
      && row.expiresAt <= now && row.useCount == CommitsOf(s.log, id)
      && Reported(end.intents[id], later) in {Completed, Expired}
      && (Reported(end.intents[id], later) == Completed <==> CommitsOf(end.log, id) == UseLimit(row.purpose))
  {
    RunKeepsInv(s, more);
    RunIsLater(s, more, id);
    UsedUp(s, id);
    UsedUp(Run(s, more), id);
    FinalReports(s.intents[id], Run(s, more).intents[id], now, later);
  }

  /** A step that carries a clock from before the deadline of the intent it commits. */
  predicate InTime(step: Step, id: IntentId, deadline: Time) {
    step.CommitClaim? && step.id == id && step.now < deadline
  }

  lemma UsesStayInStep(s: System, step: Step, id: IntentId)
    requires Inv(s) && id in s.intents && !InTime(step, id, s.intents[id].expiresAt)
    ensures CommitsOf(Apply(s, step).log, id) == CommitsOf(s.log, id)
  {
    var log := Apply(s, step).log;
    if log != s.log {
      CommitAppends(s.log, log[|s.log|], id);
    }
  }

  lemma {:induction false} UsesStay(s: System, steps: seq<Step>, id: IntentId)
    requires Inv(s) && id in s.intents && id in Run(s, steps).intents
    requires forall i :: 0 <= i < |steps| ==> !InTime(steps[i], id, s.intents[id].expiresAt)
    ensures CommitsOf(Run(s, steps).log, id) == CommitsOf(s.log, id)
    decreases |steps|
  {
    if steps != [] {
      var next := Apply(s, steps[0]);
      assert !InTime(steps[0], id, s.intents[id].expiresAt);
      assert forall i :: 0 <= i < |steps[1..]| ==> steps[1..][i] == steps[i + 1];
      StepKeepsInv(s, steps[0]);
      RowsDoNotReturn(s, steps[0], steps[1..], id);
      StepIsLater(s, steps[0], id);
      UsesStayInStep(s, steps[0], id);
      UsesStay(next, steps[1..], id);
    }
  }

  /** So "expired" is final where no later commit of the intent carries a clock from before its deadline. */
  lemma ExpiredIsFinal(s: System, steps: seq<Step>, more: seq<Step>, id: IntentId, now: Time, later: Time)
    requires Initial(s) && id in Run(s, steps).intents && id in Run(Run(s, steps), more).intents && now <= later
    requires Reported(Run(s, steps).intents[id], now) == Expired
    requires forall i :: 0 <= i < |more| ==> !InTime(more[i], id, Run(s, steps).intents[id].expiresAt)
    ensures Reported(Run(Run(s, steps), more).intents[id], later) == Expired
  {
    RunKeepsInv(s, steps);
    UsesStay(Run(s, steps), more, id);
    CompletedIffUsedUp(s, steps, id, now);
    assert RowOk(Run(s, steps), id);
    ExpiryIsTakenBackIff(s, steps, more, id, now, later);
  }

  /** And it is taken back by a visitor who claims in time, reads the clock before the deadline and commits after the report. */
  lemma ExpiryIsTakenBack() returns (s: System, steps: seq<Step>, more: seq<Step>)
    ensures Initial(s) && 0 in Run(s, steps).intents && 0 in Run(Run(s, steps), more).intents
    ensures Reported(Run(s, steps).intents[0], 10) == Expired && Reported(Run(Run(s, steps), more).intents[0], 10) == Completed
  {
    s := System(Some(Share(0, 1, None)), 0, map[], map[], 0, [], []);
    var row := NewIntent(0, Download, 10, 0);
    var create, claim := Create(0, 0, Download, 10, 0), Claim(0, row, 0, true, 1);
    steps, more := [create, claim], [CommitClaim(0, 0, 0, true, 9)];
    assert steps[1..] == [claim] && [claim][1..] == [] && more[1..] == [];
    assert Run(Apply(s, create), [claim]) == Apply(Apply(s, create), claim);
    assert Run(s, steps) == Apply(Apply(s, create), claim);
    assert Run(s, steps).intents[0] == row.(claimToken := Some(0), claimedAt := Some(1), updatedAt := 1);
    assert Run(Run(s, steps), more) == Apply(Run(s, steps), more[0]);
  }
}
