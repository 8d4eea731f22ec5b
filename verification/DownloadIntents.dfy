/**
 Download and preview intents: permissions that are claimed for 30 seconds at a time and used up by commits.
 Shares and files keep them in separate tables with the same steps.
 */
module DownloadIntents {
  import opened Options
  import opened TransferStates

  type IntentId = nat
  type Token = nat

  const CLAIM_LEASE_MS: Time := 30 * 1000

  datatype Purpose = Download | Preview

  function UseLimit(purpose: Purpose): nat {
    if purpose == Preview then 64 else 1
  }

  datatype Intent = Intent(
    nodeId: nat,
    purpose: Purpose,
    claimToken: Option<Token>,
    claimedAt: Option<Time>,
    consumedAt: Option<Time>,
    failureCode: Option<FailureCode>,
    useCount: nat,
    expiresAt: Time,
    updatedAt: Time)

  function NewIntent(nodeId: nat, purpose: Purpose, expiresAt: Time, now: Time): Intent {
    Intent(nodeId, purpose, None, None, None, None, 0, expiresAt, now)
  }

  predicate ActiveClaim(row: Intent, now: Time) {
    row.claimToken.Some? && row.claimedAt.Some? && row.claimedAt.value > now - CLAIM_LEASE_MS
  }

  /** What the read before a claim asks of the row. */
  predicate Usable(row: Intent, nodeId: nat, visitorMatches: bool, now: Time) {
    && row.nodeId == nodeId && row.expiresAt > now
    && !(row.purpose == Download && row.consumedAt.Some?)
    && row.useCount < UseLimit(row.purpose)
    && !ActiveClaim(row, now) && visitorMatches
  }

  /** The claim compares the row with the one read before, and takes it. */
  function ClaimTx(row: Intent, seen: Intent, token: Token, now: Time): Option<Intent> {
    if
      && row.claimToken == seen.claimToken && row.claimedAt == seen.claimedAt && row.failureCode == seen.failureCode
      && row.purpose == seen.purpose && row.updatedAt == seen.updatedAt && row.useCount == seen.useCount
      && row.consumedAt.None? && row.expiresAt > now
    then Some(row.(claimToken := Some(token), claimedAt := Some(now), failureCode := None, updatedAt := now))
    else None
  }

  function CommitTx(row: Intent, nodeId: nat, token: Token, now: Time): Option<Intent> {
    if
      && row.nodeId == nodeId && row.claimToken == Some(token) && row.expiresAt > now
      && row.useCount < UseLimit(row.purpose) && (row.purpose == Download ==> row.consumedAt.None?)
    then Some(row.(claimToken := None, claimedAt := None,
                   consumedAt := if row.purpose == Download then Some(now) else row.consumedAt,
                   failureCode := None, updatedAt := now, useCount := row.useCount + 1))
    else None
  }

  /** Failing a claim notes the failure, releasing it keeps what was noted. */
  function ClearTx(row: Intent, nodeId: nat, token: Token, failure: Option<FailureCode>, now: Time): Option<Intent> {
    if row.nodeId == nodeId && row.claimToken == Some(token) && row.consumedAt.None? && row.expiresAt > now
    then Some(row.(claimToken := None, claimedAt := None,
                   failureCode := if failure.Some? then failure else row.failureCode, updatedAt := now))
    else None
  }

  // ---------- what a reader is told ----------

  predicate IsCompleted(row: Intent) {
    if row.purpose == Download then row.consumedAt.Some? else row.useCount >= UseLimit(row.purpose)
  }

  /** The status that the row and the clock come to, before the deadline of the lifecycle is applied. */
  function DerivedStatus(row: Intent, now: Time): Status {
    if IsCompleted(row) then Completed
    else if row.expiresAt <= now then Expired
    else if ActiveClaim(row, now) then Running
    else if row.claimToken.Some? then Failed
    else if row.failureCode.Some? then Failed
    else if row.purpose == Preview && row.useCount > 0 then Running
    else Pending
  }

  function Reported(row: Intent, now: Time): Status {
    ReportedStatus(DerivedStatus(row, now), Some(row.expiresAt), now)
  }

  /** The row may have been claimed, committed or cleared in between. */
  predicate Later(row: Intent, next: Intent) {
    && next.purpose == row.purpose && next.expiresAt == row.expiresAt
    && row.useCount <= next.useCount
    && (row.consumedAt.Some? ==> next.consumedAt == row.consumedAt)
  }

  /** "Completed" is never taken back; "expired" only by commits that use the intent up. */
  lemma FinalReports(row: Intent, next: Intent, now: Time, later: Time)
    requires Later(row, next)
    ensures Reported(row, now) == Completed ==> Reported(next, later) == Completed
    ensures Reported(row, now) == Expired && now <= later ==> Reported(next, later) == if IsCompleted(next) then Completed else Expired
  {
  }

  /** What a reader is told, in the order in which it is decided. */
  lemma ReportedIs(row: Intent, now: Time)
    ensures Reported(row, now) ==
      if (row.purpose == Download && row.consumedAt.Some?) || (row.purpose == Preview && row.useCount >= 64) then Completed
      else if now >= row.expiresAt then Expired
      else if row.claimToken.Some? then
        (if row.claimedAt.Some? && now < row.claimedAt.value + 30_000 then Running else Failed)
      else if row.failureCode.Some? then Failed
      else if row.purpose == Preview && row.useCount > 0 then Running
      else Pending
  {
  }

  // ---------- what a claim is good for ----------

  /**
   A usable row that nobody has changed since it was read can be claimed, as long as nothing was consumed. Its
   new token commits exactly until the deadline of the intent, no other token does, and no token does twice.
   */
  lemma ClaimThenCommit(row: Intent, nodeId: nat, token: Token, now: Time, other: Token, later: Time, last: Time)
    requires Usable(row, nodeId, true, now) && row.consumedAt.None?
    ensures var claimed := ClaimTx(row, row, token, now);
      && claimed.Some?
      && (CommitTx(claimed.value, nodeId, other, later).Some? <==> other == token && later < row.expiresAt)
      && (later < row.expiresAt ==>
            var committed := CommitTx(claimed.value, nodeId, token, later).value;
            && committed.useCount == row.useCount + 1 <= (if row.purpose == Download then 1 else 64)
            && (IsCompleted(committed) <==> committed.useCount == if row.purpose == Download then 1 else 64)
            && (row.purpose == Download ==> committed.consumedAt == Some(later))
            && committed == row.(claimToken := None, claimedAt := None, failureCode := None, updatedAt := later,
                                 useCount := committed.useCount, consumedAt := committed.consumedAt)
            && CommitTx(committed, nodeId, token, last).None?)
  {
  }

  /** Whoever holds a claim for 30 seconds keeps the row from being found; then it can be found, and the claim be lost. */
  lemma LeaseHidesRow(row: Intent, nodeId: nat, token: Token, now: Time, taker: Token, later: Time)
    requires Usable(row, nodeId, true, now) && row.consumedAt.None? && later < row.expiresAt
    ensures var claimed := ClaimTx(row, row, token, now).value;
      && (Usable(claimed, nodeId, true, later) <==> later >= now + 30_000)
      && (Usable(claimed, nodeId, true, later) && taker != token ==>
            var taken := ClaimTx(claimed, claimed, taker, later).value;
            forall t :: CommitTx(taken, nodeId, token, t).None? && ClearTx(taken, nodeId, token, None, t).None?)
  {
  }

  /**
   A claim that is released or failed leaves the row as it was, but for an abandoned claim or a failure noted
   before and the time of the change; anyone can claim it again until its deadline.
   */
  lemma ReleaseUndoesClaim(row: Intent, nodeId: nat, token: Token, now: Time, failure: Option<FailureCode>, later: Time)
    requires Usable(row, nodeId, true, now) && row.consumedAt.None?
    requires later < row.expiresAt
    ensures var cleared := ClearTx(ClaimTx(row, row, token, now).value, nodeId, token, failure, later);
      && cleared == Some(row.(claimToken := None, claimedAt := None, failureCode := failure, updatedAt := later))
      && (forall t :: Usable(cleared.value, nodeId, true, t) <==> t < row.expiresAt)
      && (failure.Some? ==> DerivedStatus(cleared.value, later) == Failed)
  {
  }

  // ---------- the table ----------

  /** The statements of the repository on its table. Each does to a row what the steps of the runs do to it. */
  class IntentStore {
    var rows: map<IntentId, Intent>

    constructor ()
      ensures rows == map[]
    {
      rows := map[];
    }

    method Create(id: IntentId, nodeId: nat, purpose: Purpose, expiresAt: Time, now: Time)
      requires id !in rows
      modifies this
      ensures rows == old(rows)[id := NewIntent(nodeId, purpose, expiresAt, now)]
    {
      rows := rows[id := Intent(nodeId, purpose, None, None, None, None, 0, expiresAt, now)];
    }

    /** The first half of a claim, a plain read. */
    method FindUsable(id: IntentId, nodeId: nat, visitorMatches: bool, now: Time) returns (row: Option<Intent>)
      ensures row == if id in rows && Usable(rows[id], nodeId, visitorMatches, now) then Some(rows[id]) else None
    {
      if id !in rows {
        return None;
      }
      var found := rows[id];
      var hasActiveClaim := found.claimToken.Some? && found.claimedAt.Some? && found.claimedAt.value > now - CLAIM_LEASE_MS;
      if found.nodeId != nodeId || found.expiresAt <= now || (found.purpose == Download && found.consumedAt.Some?)
        || found.useCount >= UseLimit(found.purpose) || hasActiveClaim || !visitorMatches {
        return None;
      }
      return Some(found);
    }

    /** The second half, a compare-and-set. Other callers may have come in between. */
    method CompareAndClaim(id: IntentId, seen: Intent, token: Token, now: Time) returns (claimed: bool)
      modifies this
      ensures claimed <==> id in old(rows) && ClaimTx(old(rows)[id], seen, token, now).Some?
      ensures rows == if claimed then old(rows)[id := ClaimTx(old(rows)[id], seen, token, now).value] else old(rows)
    {
      if id !in rows {
        return false;
      }
      var row := rows[id];
      if row.claimToken != seen.claimToken || row.claimedAt != seen.claimedAt || row.failureCode != seen.failureCode
        || row.purpose != seen.purpose || row.updatedAt != seen.updatedAt || row.useCount != seen.useCount
        || row.consumedAt.Some? || row.expiresAt <= now {
        return false;
      }
      rows := rows[id := row.(claimToken := Some(token), claimedAt := Some(now), failureCode := None, updatedAt := now)];
      return true;
    }

    method Commit(id: IntentId, nodeId: nat, token: Token, now: Time) returns (committed: bool)
      modifies this
      ensures committed <==> id in old(rows) && CommitTx(old(rows)[id], nodeId, token, now).Some?
      ensures rows == if committed then old(rows)[id := CommitTx(old(rows)[id], nodeId, token, now).value] else old(rows)
    {
      if id !in rows {
        return false;
      }
      var row := rows[id];
      if row.nodeId != nodeId || row.claimToken != Some(token) || row.expiresAt <= now || row.useCount >= UseLimit(row.purpose) {
        return false;
      }
      if row.purpose == Download && row.consumedAt.Some? {
        return false;
      }
      var consumedAt := if row.purpose == Download then Some(now) else row.consumedAt;
      rows := rows[id := row.(claimToken := None, claimedAt := None, consumedAt := consumedAt,
                              failureCode := None, updatedAt := now, useCount := row.useCount + 1)];
      return true;
    }

    method ClearClaim(id: IntentId, nodeId: nat, token: Token, failure: Option<FailureCode>, now: Time) returns (cleared: bool)
      modifies this
      ensures cleared <==> id in old(rows) && ClearTx(old(rows)[id], nodeId, token, failure, now).Some?
      ensures rows == if cleared then old(rows)[id := ClearTx(old(rows)[id], nodeId, token, failure, now).value] else old(rows)
    {
      if id !in rows {
        return false;
      }
      var row := rows[id];
      if row.nodeId != nodeId || row.claimToken != Some(token) || row.consumedAt.Some? || row.expiresAt <= now {
        return false;
      }
      var failureCode := if failure.Some? then failure else row.failureCode;
      rows := rows[id := row.(claimToken := None, claimedAt := None, failureCode := failureCode, updatedAt := now)];
      return true;
    }

    /** The pruning of the runs, as a statement on the table. */
    method PruneExpired(now: Time)
      modifies this
      ensures rows == Unexpired(old(rows), now)
    {
      rows := map id | id in rows && rows[id].expiresAt > now :: rows[id];
    }
  }

  function Unexpired(rows: map<IntentId, Intent>, now: Time): map<IntentId, Intent> {
    map id | id in rows && rows[id].expiresAt > now :: rows[id]
  }
}
