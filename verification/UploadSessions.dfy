/**
 The rows behind one upload session, and what each transaction of the session stores does to them
 when it commits. A transaction that finds its guards unmet is rolled back and returns None.

 Values read before a transaction starts (`seen...`) are arguments: another transaction may have
 changed the row in between.
 */
module UploadSessions {
  import opened Options
  import opened TransferStates
  import opened UploadParts

  type Token = nat
  type NodeId = nat

  const LEASE_MS: Time := 15 * 60 * 1000

  datatype Session = Session(
    status: Status,
    failureCode: Option<FailureCode>,
    completionToken: Option<Token>,
    completionStartedAt: Option<Time>,
    expiresAt: Option<Time>,
    storageFinalizedAt: Option<Time>,
    nodeId: Option<NodeId>)

  /** Progress is kept in tenths of a percent. */
  datatype Transfer = Transfer(
    status: Status,
    failureCode: Option<FailureCode>,
    progress: int,
    expiresAt: Option<Time>,
    nodeId: Option<NodeId>)

  datatype AuditAction = TransferWasCompleted | TransferHasFailed | TransferHasExpired | TransferWasCanceled

  /** `nodeWrites` is the log of file-node write transactions that this session caused. */
  datatype Rows = Rows(
    session: Session,
    transfer: Transfer,
    parts: map<int, Part>,
    audits: seq<AuditAction>,
    nodeWrites: seq<NodeId>)

  /** The session has no holder whose lease could still be running. */
  predicate Free(s: Session, now: Time) {
    || s.completionToken.None?
    || s.completionStartedAt.None?
    || s.completionStartedAt.value <= now - LEASE_MS
  }

  /** A token gives way when there is none, or when 15 minutes have gone by. */
  lemma FreeFrom(s: Session, now: Time)
    ensures Free(s, now) <==>
      (s.completionToken.Some? && s.completionStartedAt.Some? ==> s.completionStartedAt.value + 15 * 60 * 1000 <= now)
  {
  }

  predicate HeldBy(s: Session, token: Token) {
    s.status == Running && s.completionToken == Some(token)
  }

  function WithoutToken(s: Session): Session {
    s.(completionToken := None, completionStartedAt := None)
  }

  function Ended(s: Session, status: Status, failureCode: Option<FailureCode>): Session {
    WithoutToken(s).(status := status, failureCode := failureCode)
  }

  /** A deadline pushed out to the end of the lease that starts now. */
  function ExtendedExpiry(seen: Option<Time>, now: Time): Option<Time> {
    if seen.Some? && seen.value < now + LEASE_MS then Some(now + LEASE_MS) else seen
  }

  // ---------- steps of a holder ----------

  function ClaimTx(r: Rows, expected: Status, seenExpiresAt: Option<Time>, token: Token, now: Time): Option<Rows> {
    if
      && (expected == Running || expected == Failed)
      && r.transfer.status in {Pending, Running, Failed}
      && Live(r.transfer.expiresAt, now)
      && r.session.status == expected
      && Live(r.session.expiresAt, now)
      && Free(r.session, now)
    then
      var extended := ExtendedExpiry(seenExpiresAt, now);
      var moved := extended != seenExpiresAt;
      Some(r.(
        transfer := r.transfer.(status := Running, failureCode := None,
                                expiresAt := if moved then extended else r.transfer.expiresAt),
        session := r.session.(status := Running, failureCode := None,
                              completionToken := Some(token), completionStartedAt := Some(now),
                              expiresAt := if moved then extended else r.session.expiresAt)))
    else None
  }

  /** A deadline that a refresh never shortens and never adds. */
  function RefreshedExpiry(seen: Option<Time>, now: Time): Option<Time> {
    if seen.None? then None
    else if seen.value > now + LEASE_MS then seen
    else Some(now + LEASE_MS)
  }

  function RefreshTx(r: Rows, token: Token, seenSession: Option<Time>, seenTransfer: Option<Time>, now: Time): Option<Rows> {
    if
      && r.transfer.status == Running
      && Live(r.transfer.expiresAt, now)
      && HeldBy(r.session, token)
      && Live(r.session.expiresAt, now)
    then Some(r.(
      transfer := r.transfer.(expiresAt := RefreshedExpiry(seenTransfer, now)),
      session := r.session.(completionStartedAt := Some(now), expiresAt := RefreshedExpiry(seenSession, now))))
    else None
  }

  function MarkFinalizedTx(r: Rows, token: Token, now: Time): Option<Rows> {
    if HeldBy(r.session, token) && Live(r.session.expiresAt, now) then
      Some(r.(session := r.session.(storageFinalizedAt := Some(now), completionStartedAt := Some(now))))
    else None
  }

  /** The session's part in the transaction that writes the file node. */
  function WriteNodeTx(r: Rows, token: Token, nodeId: NodeId, now: Time): Option<Rows> {
    if HeldBy(r.session, token) && Live(r.session.expiresAt, now) then
      Some(r.(session := r.session.(nodeId := Some(nodeId), completionStartedAt := Some(now)),
              nodeWrites := r.nodeWrites + [nodeId]))
    else None
  }

  function CompleteTx(r: Rows, token: Token, nodeId: NodeId): Option<Rows> {
    var enters := r.transfer.status in TransitionSources(Completed) - {Completed};
    var already := r.transfer.status == Completed && r.transfer.nodeId == Some(nodeId);
    if (enters || already) && HeldBy(r.session, token) && r.session.nodeId == Some(nodeId) then
      Some(r.(
        transfer := if enters then r.transfer.(status := Completed, failureCode := None, progress := 1000, nodeId := Some(nodeId))
                    else r.transfer,
        session := Ended(r.session, Completed, None),
        audits := if enters then r.audits + [TransferWasCompleted] else r.audits))
    else None
  }

  function FailureAudit(status: Status): AuditAction {
    if status == Expired then TransferHasExpired else TransferHasFailed
  }

  /** What a failure does to the transfer row and the audit log. */
  function SettleFailure(r: Rows, status: Status, code: FailureCode, needsLive: bool, now: Time): Option<Rows> {
    if r.transfer.status in TransitionSources(status) - {status} && (needsLive ==> Live(r.transfer.expiresAt, now)) then
      Some(r.(transfer := r.transfer.(status := status, failureCode := Some(code)),
              audits := r.audits + [FailureAudit(status)]))
    else if r.transfer.status == status && r.transfer.failureCode == Some(code) then Some(r)
    else None
  }

  function FailTx(r: Rows, token: Token, seenExpiresAt: Option<Time>, code: FailureCode, now: Time): Option<Rows> {
    var expired := !Live(seenExpiresAt, now);
    var status := if expired then Expired else Failed;
    var resolved := if expired then UploadSessionExpired else code;
    var settled := SettleFailure(r, status, resolved, !expired, now);
    if settled.Some? && HeldBy(r.session, token) && Live(r.session.expiresAt, now) == !expired then
      Some(settled.value.(session := Ended(r.session, status, Some(resolved))))
    else None
  }

  /** What a cancellation does to the transfer row and the audit log. */
  function SettleCancel(r: Rows, needsLive: bool, now: Time): Option<Rows> {
    if r.transfer.status in TransitionSources(Canceled) - {Canceled} && (needsLive ==> Live(r.transfer.expiresAt, now)) then
      Some(r.(transfer := r.transfer.(status := Canceled, failureCode := None),
              audits := r.audits + [TransferWasCanceled]))
    else if r.transfer.status == Canceled then Some(r)
    else None
  }

  function CancelHeldTx(r: Rows, token: Token, now: Time): Option<Rows> {
    var settled := SettleCancel(r, false, now);
    if settled.Some? && HeldBy(r.session, token) then
      Some(settled.value.(session := Ended(r.session, Canceled, None)))
    else None
  }

  // ---------- steps of a part writer ----------

  function ClaimWriteTx(r: Rows, token: Token, now: Time): Option<Rows> {
    if
      && r.transfer.status == Running
      && Live(r.transfer.expiresAt, now)
      && r.session.status == Running
      && r.session.storageFinalizedAt.None?
      && Live(r.session.expiresAt, now)
      && Free(r.session, now)
    then Some(r.(session := r.session.(completionToken := Some(token), completionStartedAt := Some(now))))
    else None
  }

  function CommitWriteTx(r: Rows, token: Token, partIndex: int, part: Part, now: Time): Option<Rows> {
    if HeldBy(r.session, token) && r.session.storageFinalizedAt.None? && Live(r.session.expiresAt, now) then
      Some(r.(parts := r.parts[partIndex := part], session := WithoutToken(r.session)))
    else None
  }

  function ReleaseWriteTx(r: Rows, token: Token): Option<Rows> {
    if HeldBy(r.session, token) then Some(r.(session := WithoutToken(r.session))) else None
  }

  // ---------- steps of parties without a token ----------

  function ResumeTx(r: Rows, expected: Status, progress: int, seenExpiresAt: Option<Time>, now: Time): Option<Rows> {
    var normalized := if progress < 0 then 0 else if progress > 1000 then 1000 else progress;
    if
      && expected in {Running, Paused, Failed}
      && CanTransition(expected, Running)
      && seenExpiresAt.Some? && seenExpiresAt.value > now
      && r.transfer.status in TransitionSources(Running)
      && Live(r.transfer.expiresAt, now)
      && r.session.status == expected
      && r.session.expiresAt == seenExpiresAt
      && Free(r.session, now)
    then Some(r.(
      transfer := r.transfer.(status := Running, failureCode := None, expiresAt := seenExpiresAt,
                              progress := if r.transfer.progress <= normalized then normalized else r.transfer.progress),
      session := Ended(r.session, Running, None)))
    else None
  }

  function TransitionFailureTx(r: Rows, seen: Session, status: Status, givenCode: Option<FailureCode>, now: Time): Option<Rows> {
    var code :=
      if status == Expired then UploadSessionExpired
      else if givenCode.Some? then givenCode.value else UploadFailed;
    var already := seen.status == status && seen.failureCode == Some(code);
    var settled := SettleFailure(r, status, code, status == Failed, now);
    if
      || (status != Failed && status != Expired)
      || (!already && !CanTransition(seen.status, status))
      || (status == Expired) != !Live(seen.expiresAt, now)
      || settled.None?
    then None
    else if already then
      if r.session.status == status && r.session.failureCode == Some(code) then settled else None
    else if
      && r.session.status == seen.status
      && (status == Expired) == !Live(r.session.expiresAt, now)
      && Free(r.session, now)
    then Some(settled.value.(session := Ended(r.session, status, Some(code))))
    else None
  }

  function CancelTx(r: Rows, seen: Session, expected: Status, now: Time): Option<Rows> {
    var already := seen.status == Canceled;
    var settled := SettleCancel(r, true, now);
    if !CanTransition(expected, Canceled) || (!already && seen.status != expected) || settled.None? then None
    else if already then
      if r.session.status == Canceled && r.session.failureCode.None? then settled else None
    else if r.session.status == expected && Live(r.session.expiresAt, now) && Free(r.session, now) then
      Some(settled.value.(session := Ended(r.session, Canceled, None)))
    else None
  }

  function LegacyExpiryTx(r: Rows, seen: Session, expiresAt: Time): Option<Rows> {
    var dueTransfer := r.transfer.status == seen.status && r.transfer.expiresAt.None?;
    var doneTransfer := r.transfer.status == seen.status && r.transfer.expiresAt == Some(expiresAt);
    var dueSession := r.session.status == r.transfer.status && r.session.completionToken.None? && r.session.expiresAt.None?;
    var doneSession := r.session.status == r.transfer.status && r.session.expiresAt == Some(expiresAt);
    if
      || (seen.expiresAt.Some? && seen.expiresAt.value != expiresAt)
      || !(dueTransfer || doneTransfer)
      || !(dueSession || doneSession)
    then None
    else Some(r.(transfer := r.transfer.(expiresAt := Some(expiresAt)), session := r.session.(expiresAt := Some(expiresAt))))
  }
}
