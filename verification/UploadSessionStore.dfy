/**
 The session stores as they run against the database: a transaction is a sequence of guarded row
 updates, the first on the transfer row and the next on the session row, and an update that matches
 no row makes the transaction restore what it has changed and give up.
 */
module UploadSessionStores {
  import opened Options
  import opened TransferStates
  import opened UploadParts
  import opened UploadSessions

  class UploadSessionStore {
    var session: Session
    var transfer: Transfer
    var parts: map<int, Part>
    var audits: seq<AuditAction>
    var nodeWrites: seq<NodeId>

    function Current(): Rows
      reads this
    {
      Rows(session, transfer, parts, audits, nodeWrites)
    }

    constructor (session: Session, transfer: Transfer)
      ensures Current() == Rows(session, transfer, map[], [], [])
    {
      this.session := session;
      this.transfer := transfer;
      parts := map[];
      audits := [];
      nodeWrites := [];
    }

    method Claim(expected: Status, seenExpiresAt: Option<Time>, token: Token, now: Time) returns (claimed: bool)
      modifies this
      ensures claimed <==> ClaimTx(old(Current()), expected, seenExpiresAt, token, now).Some?
      ensures Current() == if claimed then ClaimTx(old(Current()), expected, seenExpiresAt, token, now).value else old(Current())
      ensures claimed <==>
                && expected in {Running, Failed} && old(session.status) == expected && old(transfer.status) in {Pending, Running, Failed}
                && Live(old(session.expiresAt), now) && Live(old(transfer.expiresAt), now) && Free(old(session), now)
      ensures claimed ==> session.status == transfer.status == Running && session.completionToken == Some(token)
      ensures claimed ==> session.completionStartedAt == Some(now) && session.failureCode.None? && transfer.failureCode.None?
      ensures claimed && seenExpiresAt.Some? && seenExpiresAt.value < now + 900_000 ==>
                session.expiresAt == transfer.expiresAt == Some(now + 900_000)
      ensures claimed && (seenExpiresAt.Some? ==> seenExpiresAt.value >= now + 900_000) ==>
                session.expiresAt == old(session.expiresAt) && transfer.expiresAt == old(transfer.expiresAt)
    {
      if expected != Running && expected != Failed {
        return false;
      }
      var leaseExpiresAt := now + LEASE_MS;
      var extendsExpiry := seenExpiresAt.Some? && seenExpiresAt.value < leaseExpiresAt;
      var before := transfer;
      var count := 0;
      if transfer.status in {Pending, Running, Failed} && Live(transfer.expiresAt, now) {
        transfer := transfer.(status := Running, failureCode := None);
        if extendsExpiry {
          transfer := transfer.(expiresAt := Some(leaseExpiresAt));
        }
        count := 1;
      }
      if count != 1 {
        return false;
      }
      if session.status != expected || !Live(session.expiresAt, now) || !Free(session, now) {
        transfer := before;
        return false;
      }
      session := session.(status := Running, failureCode := None);
      session := session.(completionToken := Some(token), completionStartedAt := Some(now));
      if extendsExpiry {
        session := session.(expiresAt := Some(leaseExpiresAt));
      }
      return true;
    }

    method Refresh(token: Token, seenSession: Option<Time>, seenTransfer: Option<Time>, now: Time) returns (refreshed: bool)
      modifies this`session, this`transfer
      ensures refreshed <==> RefreshTx(old(Current()), token, seenSession, seenTransfer, now).Some?
      ensures Current() == if refreshed then RefreshTx(old(Current()), token, seenSession, seenTransfer, now).value else old(Current())
      ensures refreshed <==>
                && old(session.status) == old(transfer.status) == Running && old(session.completionToken) == Some(token)
                && Live(old(session.expiresAt), now) && Live(old(transfer.expiresAt), now)
      ensures refreshed ==> session.completionStartedAt == Some(now) && session.completionToken == Some(token)
      ensures refreshed ==> session.expiresAt == if seenSession.Some? && seenSession.value < now + 900_000 then Some(now + 900_000) else seenSession
      ensures refreshed ==> transfer.expiresAt == if seenTransfer.Some? && seenTransfer.value < now + 900_000 then Some(now + 900_000) else seenTransfer
    {
      var leaseExpiresAt := now + LEASE_MS;
      var sessionExpiresAt := seenSession;
      if seenSession.Some? && seenSession.value <= leaseExpiresAt {
        sessionExpiresAt := Some(leaseExpiresAt);
      }
      var transferExpiresAt := seenTransfer;
      if seenTransfer.Some? && seenTransfer.value <= leaseExpiresAt {
        transferExpiresAt := Some(leaseExpiresAt);
      }
      var before := transfer;
      if transfer.status != Running || !Live(transfer.expiresAt, now) {
        return false;
      }
      transfer := transfer.(expiresAt := transferExpiresAt);
      if session.completionToken != Some(token) || session.status != Running || !Live(session.expiresAt, now) {
        transfer := before;
        return false;
      }
      session := session.(completionStartedAt := Some(now), expiresAt := sessionExpiresAt);
      return true;
    }

    /** Once storage is marked, no part is claimed or stored any more: the rows stay as the marking left them. */
    method MarkStorageFinalized(token: Token, now: Time) returns (marked: bool)
      modifies this`session
      ensures marked <==> MarkFinalizedTx(old(Current()), token, now).Some?
      ensures Current() == if marked then MarkFinalizedTx(old(Current()), token, now).value else old(Current())
      ensures marked <==> old(session.status) == Running && old(session.completionToken) == Some(token) && Live(old(session.expiresAt), now)
      ensures marked ==> session.status == Running && session.storageFinalizedAt == Some(now) && parts == old(parts)
      ensures marked ==> forall any: Token, later: Time :: ClaimWriteTx(Current(), any, later).None?
      ensures marked ==> forall any: Token, i: int, part: Part, later: Time :: CommitWriteTx(Current(), any, i, part, later).None?
    {
      if session.status != Running || session.completionToken != Some(token) || !Live(session.expiresAt, now) {
        return false;
      }
      session := session.(storageFinalizedAt := Some(now), completionStartedAt := Some(now));
      return true;
    }

    /** The last statements of the file-node write: stamp the session, or abort with the node write undone. */
    method PersistNode(token: Token, nodeId: NodeId, now: Time) returns (persisted: bool)
      modifies this`session, this`nodeWrites
      ensures persisted <==> WriteNodeTx(old(Current()), token, nodeId, now).Some?
      ensures Current() == if persisted then WriteNodeTx(old(Current()), token, nodeId, now).value else old(Current())
      ensures persisted <==> old(session.status) == Running && old(session.completionToken) == Some(token) && Live(old(session.expiresAt), now)
      ensures persisted ==> session == old(session).(nodeId := Some(nodeId), completionStartedAt := Some(now))
      ensures persisted ==> nodeWrites == old(nodeWrites) + [nodeId]
    {
      var before := nodeWrites;
      nodeWrites := nodeWrites + [nodeId];
      if session.status != Running || session.completionToken != Some(token) || !Live(session.expiresAt, now) {
        nodeWrites := before;
        return false;
      }
      session := session.(nodeId := Some(nodeId), completionStartedAt := Some(now));
      return true;
    }

    method Complete(token: Token, nodeId: NodeId) returns (completed: bool)
      modifies this
      ensures completed <==> CompleteTx(old(Current()), token, nodeId).Some?
      ensures Current() == if completed then CompleteTx(old(Current()), token, nodeId).value else old(Current())
      ensures completed <==>
                && old(session.status) == Running && old(session.completionToken) == Some(token) && old(session.nodeId) == Some(nodeId)
                && (old(transfer.status) in {Pending, Running} || (old(transfer.status) == Completed && old(transfer.nodeId) == Some(nodeId)))
      ensures completed ==> session == old(session).(status := Completed, failureCode := None, completionToken := None, completionStartedAt := None)
      ensures completed && old(transfer.status) != Completed ==>
                && transfer == old(transfer).(status := Completed, failureCode := None, progress := 1000, nodeId := Some(nodeId))
                && audits == old(audits) + [TransferWasCompleted]
      ensures completed && old(transfer.status) == Completed ==> transfer == old(transfer) && audits == old(audits)
    {
      var before := transfer;
      var changed := transfer.status in TransitionSources(Completed) && transfer.status != Completed;
      if changed {
        transfer := transfer.(status := Completed, failureCode := None, progress := 1000, nodeId := Some(nodeId));
      } else if transfer.status != Completed || transfer.nodeId != Some(nodeId) {
        return false;
      }
      if session.status != Running || session.completionToken != Some(token) || session.nodeId != Some(nodeId) {
        transfer := before;
        return false;
      }
      session := session.(status := Completed, failureCode := None);
      session := session.(completionToken := None, completionStartedAt := None);
      if changed {
        audits := audits + [TransferWasCompleted];
      }
      return true;
    }

    /** The failure of the transfer row. A transfer that has failed in the same way already is left alone. */
    method FailTransfer(status: Status, code: FailureCode, needsLive: bool, now: Time) returns (settled: bool, changed: bool)
      modifies this`transfer
      ensures settled <==> SettleFailure(old(Current()), status, code, needsLive, now).Some?
      ensures !settled ==> transfer == old(transfer)
      ensures settled ==>
        SettleFailure(old(Current()), status, code, needsLive, now)
        == Some(Current().(audits := if changed then audits + [FailureAudit(status)] else audits))
      ensures settled ==> transfer == if changed then old(transfer).(status := status, failureCode := Some(code)) else old(transfer)
      ensures settled ==> transfer.status == status && transfer.failureCode == Some(code)
    {
      changed :=
        && transfer.status in TransitionSources(status)
        && transfer.status != status
        && (needsLive ==> Live(transfer.expiresAt, now));
      if changed {
        transfer := transfer.(status := status, failureCode := Some(code));
      }
      settled := changed || (transfer.status == status && transfer.failureCode == Some(code));
    }

    method Fail(token: Token, seenExpiresAt: Option<Time>, code: FailureCode, now: Time) returns (failed: bool)
      modifies this
      ensures failed <==> FailTx(old(Current()), token, seenExpiresAt, code, now).Some?
      ensures Current() == if failed then FailTx(old(Current()), token, seenExpiresAt, code, now).value else old(Current())
      ensures failed <==>
                && old(session.status) == Running && old(session.completionToken) == Some(token)
                && (Live(seenExpiresAt, now) <==> Live(old(session.expiresAt), now))
                && if Live(seenExpiresAt, now) then
                     || (old(transfer.status) in {Pending, Running, Paused} && Live(old(transfer.expiresAt), now))
                     || (old(transfer.status) == Failed && old(transfer.failureCode) == Some(code))
                   else
                     || old(transfer.status) in {Pending, Running, Paused, Failed}
                     || (old(transfer.status) == Expired && old(transfer.failureCode) == Some(UploadSessionExpired))
      ensures failed ==> session.completionToken.None? && session.completionStartedAt.None?
      ensures failed && Live(seenExpiresAt, now) ==>
                session.status == transfer.status == Failed && session.failureCode == transfer.failureCode == Some(code)
      ensures failed && !Live(seenExpiresAt, now) ==>
                session.status == transfer.status == Expired && session.failureCode == transfer.failureCode == Some(UploadSessionExpired)
      ensures failed && old(transfer.status) != transfer.status ==>
                audits == old(audits) + [if transfer.status == Expired then TransferHasExpired else TransferHasFailed]
    {
      var expired := seenExpiresAt.Some? && seenExpiresAt.value <= now;
      var status := if expired then Expired else Failed;
      var resolved := if expired then UploadSessionExpired else code;
      var before := transfer;
      var settled, changed := FailTransfer(status, resolved, !expired, now);
      if !settled {
        return false;
      }
      var due := if expired then session.expiresAt.Some? && session.expiresAt.value <= now else Live(session.expiresAt, now);
      if session.status != Running || session.completionToken != Some(token) || !due {
        transfer := before;
        return false;
      }
      session := session.(status := status, failureCode := Some(resolved));
      session := session.(completionToken := None, completionStartedAt := None);
      if changed {
        audits := audits + [FailureAudit(status)];
      }
      return true;
    }

    method CancelHeld(token: Token, now: Time) returns (canceled: bool)
      modifies this
      ensures canceled <==> CancelHeldTx(old(Current()), token, now).Some?
      ensures Current() == if canceled then CancelHeldTx(old(Current()), token, now).value else old(Current())
      ensures canceled <==>
                && old(session.status) == Running && old(session.completionToken) == Some(token)
                && old(transfer.status) in {Pending, Running, Paused, Failed, Canceled}
      ensures canceled ==> session.status == transfer.status == Canceled && session.failureCode.None? && session.completionToken.None?
      ensures canceled && old(transfer.status) != Canceled ==> transfer.failureCode.None? && audits == old(audits) + [TransferWasCanceled]
    {
      var before := transfer;
      var changed := transfer.status in TransitionSources(Canceled) && transfer.status != Canceled;
      if changed {
        transfer := transfer.(status := Canceled, failureCode := None);
      } else if transfer.status != Canceled {
        return false;
      }
      if session.status != Running || session.completionToken != Some(token) {
        transfer := before;
        return false;
      }
      session := session.(status := Canceled, failureCode := None);
      session := session.(completionToken := None, completionStartedAt := None);
      if changed {
        audits := audits + [TransferWasCanceled];
      }
      return true;
    }

    method ClaimWrite(token: Token, now: Time) returns (claimed: bool)
      modifies this`session
      ensures claimed <==> ClaimWriteTx(old(Current()), token, now).Some?
      ensures Current() == if claimed then ClaimWriteTx(old(Current()), token, now).value else old(Current())
      ensures claimed <==>
                && old(session.status) == transfer.status == Running && Live(old(session.expiresAt), now) && Live(transfer.expiresAt, now)
                && old(session.storageFinalizedAt).None? && Free(old(session), now)
      ensures claimed ==> session == old(session).(completionToken := Some(token), completionStartedAt := Some(now))
    {
      if transfer.status != Running || !Live(transfer.expiresAt, now) {
        return false;
      }
      if
        || session.status != Running
        || session.storageFinalizedAt.Some?
        || !Live(session.expiresAt, now)
        || !Free(session, now)
      {
        return false;
      }
      session := session.(completionToken := Some(token), completionStartedAt := Some(now));
      return true;
    }

    /** Renew the lease, store the part, give the token back: three statements of one transaction. */
    method CommitWrite(token: Token, partIndex: int, part: Part, now: Time) returns (committed: bool)
      modifies this`session, this`parts
      ensures committed <==> CommitWriteTx(old(Current()), token, partIndex, part, now).Some?
      ensures Current() == if committed then CommitWriteTx(old(Current()), token, partIndex, part, now).value else old(Current())
      ensures committed <==>
                && old(session.status) == Running && old(session.completionToken) == Some(token)
                && old(session.storageFinalizedAt).None? && Live(old(session.expiresAt), now)
      ensures committed ==> partIndex in parts && parts[partIndex] == part
      ensures committed ==> parts.Keys == old(parts).Keys + {partIndex}
      ensures committed ==> forall i :: i in old(parts) && i != partIndex ==> parts[i] == old(parts)[i]
      ensures committed ==> session == old(session).(completionToken := None, completionStartedAt := None)
    {
      if
        || session.status != Running
        || session.completionToken != Some(token)
        || session.storageFinalizedAt.Some?
        || !Live(session.expiresAt, now)
      {
        return false;
      }
      session := session.(completionStartedAt := Some(now));
      parts := parts[partIndex := part];
      session := session.(completionToken := None, completionStartedAt := None);
      return true;
    }

    /** A token that is given back stores nothing any more, and the session can be claimed by anyone until a deadline passes. */
    method ReleaseWrite(token: Token) returns (released: bool)
      modifies this`session
      ensures released <==> ReleaseWriteTx(old(Current()), token).Some?
      ensures Current() == if released then ReleaseWriteTx(old(Current()), token).value else old(Current())
      ensures released <==> old(session.status) == Running && old(session.completionToken) == Some(token)
      ensures released ==> session == old(session).(completionToken := None, completionStartedAt := None)
      ensures released ==> parts == old(parts)
      ensures released ==> forall i: int, part: Part, later: Time :: CommitWriteTx(Current(), token, i, part, later).None?
      ensures released && transfer.status == Running && session.storageFinalizedAt.None? ==>
                forall any: Token, t: Time :: ClaimWriteTx(Current(), any, t).Some? <==> Live(transfer.expiresAt, t) && Live(session.expiresAt, t)
    {
      if session.status != Running || session.completionToken != Some(token) {
        return false;
      }
      session := session.(completionToken := None, completionStartedAt := None);
      return true;
    }

    /** Two transfer updates are tried: one that raises the progress, and one that keeps it. */
    method Resume(expected: Status, progress: int, seenExpiresAt: Option<Time>, now: Time) returns (resumed: bool)
      modifies this`session, this`transfer
      ensures resumed <==> ResumeTx(old(Current()), expected, progress, seenExpiresAt, now).Some?
      ensures Current() == if resumed then ResumeTx(old(Current()), expected, progress, seenExpiresAt, now).value else old(Current())
      ensures resumed <==>
                && expected in {Running, Paused, Failed} && old(session.status) == expected && old(session.expiresAt) == seenExpiresAt
                && seenExpiresAt.Some? && seenExpiresAt.value > now && Free(old(session), now)
                && old(transfer.status) in {Pending, Running, Paused, Failed} && Live(old(transfer.expiresAt), now)
      ensures resumed ==> session == old(session).(status := Running, failureCode := None, completionToken := None, completionStartedAt := None)
      ensures resumed ==> transfer.status == Running && transfer.failureCode.None? && transfer.expiresAt == seenExpiresAt
      ensures resumed ==> transfer.progress >= old(transfer.progress) && (0 <= progress <= 1000 ==> transfer.progress >= progress)
      ensures resumed ==> transfer.progress == old(transfer.progress) || (0 <= transfer.progress <= 1000 && (0 <= progress <= 1000 ==> transfer.progress == progress))
    {
      if expected !in {Running, Paused, Failed} || !CanTransition(expected, Running) {
        return false;
      }
      var normalized := if progress < 0 then 0 else if progress > 1000 then 1000 else progress;
      if seenExpiresAt.None? || seenExpiresAt.value <= now {
        return false;
      }
      var before := transfer;
      var count := 0;
      if
        && transfer.status in TransitionSources(Running)
        && transfer.progress <= normalized
        && Live(transfer.expiresAt, now)
      {
        transfer := transfer.(status := Running, progress := normalized, failureCode := None, expiresAt := seenExpiresAt);
        count := 1;
      }
      if count == 0 {
        if
          && transfer.status in TransitionSources(Running)
          && transfer.progress > normalized
          && Live(transfer.expiresAt, now)
        {
          transfer := transfer.(status := Running, failureCode := None, expiresAt := seenExpiresAt);
          count := 1;
        }
      }
      if count != 1 {
        return false;
      }
      if session.status != expected || session.expiresAt != seenExpiresAt || !Free(session, now) {
        transfer := before;
        return false;
      }
      session := session.(status := Running, failureCode := None);
      session := session.(completionToken := None, completionStartedAt := None);
      return true;
    }

    method TransitionFailure(seen: Session, status: Status, givenCode: Option<FailureCode>, now: Time) returns (changed: bool)
      requires status == Failed || status == Expired
      modifies this
      ensures changed <==> TransitionFailureTx(old(Current()), seen, status, givenCode, now).Some?
      ensures Current() == if changed then TransitionFailureTx(old(Current()), seen, status, givenCode, now).value else old(Current())
      ensures
        && old(session) == seen && old(transfer.status) == seen.status && seen.status in {Pending, Running, Paused} && Free(seen, now)
        && (status == Expired <==> !Live(seen.expiresAt, now)) && (status == Failed ==> Live(old(transfer.expiresAt), now))
        ==> changed
      ensures changed ==> session.status == transfer.status == status && session.failureCode == transfer.failureCode
      ensures changed ==> session.failureCode == Some(if status == Expired then UploadSessionExpired else if givenCode.Some? then givenCode.value else UploadFailed)
      ensures changed && session != old(session) ==>
                && old(session.status) == seen.status && session.completionToken.None? && Free(old(session), now)
                && (status == Expired <==> !Live(old(session.expiresAt), now))
    {
      var code := UploadSessionExpired;
      if status == Failed {
        code := if givenCode.Some? then givenCode.value else UploadFailed;
      }
      var sessionAlreadyChanged := seen.status == status && seen.failureCode == Some(code);
      if !sessionAlreadyChanged && !CanTransition(seen.status, status) {
        return false;
      }
      var elapsed := seen.expiresAt.Some? && seen.expiresAt.value <= now;
      if (status == Expired) != elapsed {
        return false;
      }
      var before := transfer;
      var settled, transferChanged := FailTransfer(status, code, status == Failed, now);
      if !settled {
        return false;
      }
      changed := FailSession(seen, status, code, now);
      if !changed {
        transfer := before;
        return false;
      }
      if transferChanged {
        audits := audits + [FailureAudit(status)];
      }
      return true;
    }

    /** The failure of the session row, unless it has failed in the same way already. */
    method FailSession(seen: Session, status: Status, code: FailureCode, now: Time) returns (settled: bool)
      modifies this`session
      ensures var already := seen.status == status && seen.failureCode == Some(code);
        if already then
          && session == old(session)
          && (settled <==> old(session.status) == status && old(session.failureCode) == Some(code))
        else
          && (settled <==>
                old(session.status) == seen.status && Free(old(session), now) && (status == Expired <==> !Live(old(session.expiresAt), now)))
          && session == if settled then Ended(old(session), status, Some(code)) else old(session)
    {
      if seen.status == status && seen.failureCode == Some(code) {
        return session.status == status && session.failureCode == Some(code);
      }
      var due := if status == Expired then session.expiresAt.Some? && session.expiresAt.value <= now else Live(session.expiresAt, now);
      if session.status != seen.status || !due || !Free(session, now) {
        return false;
      }
      session := session.(status := status, failureCode := Some(code));
      session := session.(completionToken := None, completionStartedAt := None);
      return true;
    }

    method Cancel(seen: Session, expected: Status, now: Time) returns (canceled: bool)
      modifies this
      ensures canceled <==> CancelTx(old(Current()), seen, expected, now).Some?
      ensures Current() == if canceled then CancelTx(old(Current()), seen, expected, now).value else old(Current())
      ensures
        && old(session) == seen && old(transfer.status) == seen.status == expected && expected in {Pending, Running, Paused, Failed}
        && Live(seen.expiresAt, now) && Live(old(transfer.expiresAt), now) && Free(seen, now)
        ==> canceled
      ensures canceled ==> session.status == transfer.status == Canceled && session.failureCode.None?
      ensures canceled && session != old(session) ==>
                old(session.status) == expected && Live(old(session.expiresAt), now) && Free(old(session), now) && session.completionToken.None?
      ensures canceled && old(transfer.status) != Canceled ==> transfer.failureCode.None? && audits == old(audits) + [TransferWasCanceled]
    {
      if !CanTransition(expected, Canceled) {
        return false;
      }
      var sessionAlreadyCanceled := seen.status == Canceled;
      if !sessionAlreadyCanceled && seen.status != expected {
        return false;
      }
      var before := transfer;
      var changed :=
        && transfer.status in TransitionSources(Canceled)
        && transfer.status != Canceled
        && Live(transfer.expiresAt, now);
      if changed {
        transfer := transfer.(status := Canceled, failureCode := None);
      } else if transfer.status != Canceled {
        return false;
      }
      if sessionAlreadyCanceled {
        if session.status != Canceled || session.failureCode.Some? {
          transfer := before;
          return false;
        }
      } else {
        if session.status != expected || !Live(session.expiresAt, now) || !Free(session, now) {
          transfer := before;
          return false;
        }
        session := session.(status := Canceled, failureCode := None);
        session := session.(completionToken := None, completionStartedAt := None);
      }
      if changed {
        audits := audits + [TransferWasCanceled];
      }
      return true;
    }

    method SetLegacyExpiry(seen: Session, expiresAt: Time) returns (stored: bool)
      modifies this`session, this`transfer
      ensures stored <==> LegacyExpiryTx(old(Current()), seen, expiresAt).Some?
      ensures Current() == if stored then LegacyExpiryTx(old(Current()), seen, expiresAt).value else old(Current())
      ensures stored ==> session == old(session).(expiresAt := Some(expiresAt)) && transfer == old(transfer).(expiresAt := Some(expiresAt))
      ensures stored ==> old(session.expiresAt) in {None, Some(expiresAt)} && old(transfer.expiresAt) in {None, Some(expiresAt)}
      ensures stored && old(session.expiresAt).None? ==> old(session.completionToken).None?
    {
      if seen.expiresAt.Some? && seen.expiresAt.value != expiresAt {
        return false;
      }
      var before := transfer;
      if transfer.status == seen.status && transfer.expiresAt.None? {
        transfer := transfer.(expiresAt := Some(expiresAt));
      } else if transfer.status != seen.status || transfer.expiresAt != Some(expiresAt) {
        return false;
      }
      if session.status == transfer.status && session.completionToken.None? && session.expiresAt.None? {
        session := session.(expiresAt := Some(expiresAt));
      } else if session.status != transfer.status || session.expiresAt != Some(expiresAt) {
        transfer := before;
        return false;
      }
      return true;
    }
  }
}
