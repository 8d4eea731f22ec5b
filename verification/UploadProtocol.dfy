/**
 Any number of part writers and completers, and parties that hold no token, working on one upload
 session. Every step is one transaction or one read; between two steps of a worker anything may
 happen. A worker remembers what it read, and its program order decides what it does next.
 Each step carries its own clock reading: nothing is assumed about the order of the readings.
 */
module UploadProtocol {
  import opened Options
  import opened TransferStates
  import opened UploadParts
  import opened UploadSessions

  type WorkerId = nat

  datatype Worker =
    | Idle
    | Writer(token: Token)                                              // claimed a part write
    | Releasing(token: Token)                                           // part write went wrong
    | Claimed(token: Token, nodeId: Option<NodeId>, finalized: bool)    // claimed the completion
    | Checked(token: Token, nodeId: Option<NodeId>, finalized: bool)    // parts read again and accepted
    | Stored(token: Token, nodeId: Option<NodeId>)                      // storage is finalized
    | Placed(token: Token, placed: NodeId)                              // file node is known
    | Failing(token: Token)                                             // completion went wrong

  /** What the steps ask of the arithmetic of parts. They work in the same way for any answers. */
  datatype Plan = Plan(range: int -> Option<Range>, complete: map<int, Part> -> bool, multipart: bool)

  function PlanOf(shape: Shape): Plan {
    Plan((i: int) => ExpectedRange(shape, i), (parts: map<int, Part>) => CompleteTable(shape, parts), shape.multipart)
  }

  datatype System = System(plan: Plan, rows: Rows, workers: map<WorkerId, Worker>, nextToken: Token)

  datatype Step =
    | WriterClaims(w: WorkerId, now: Time)
    | WriterCommits(w: WorkerId, partIndex: int, eTag: Option<string>, now: Time)
    | WriterReleases(w: WorkerId)
    | CompleterClaims(w: WorkerId, expected: Status, seenExpiresAt: Option<Time>, now: Time)
    | CompleterChecksParts(w: WorkerId)
    | CompleterRefreshes(w: WorkerId, seenExpiresAt: Option<Time>, seenTransfer: Option<Time>, now: Time)
    | CompleterMarks(w: WorkerId, now: Time)
    | CompleterWritesNode(w: WorkerId, newNode: NodeId, now: Time)
    | CompleterCompletes(w: WorkerId)
    | CompleterFails(w: WorkerId, seenExpiresAt: Option<Time>, code: FailureCode, now: Time)
    | CompleterCancels(w: WorkerId, now: Time)
    | WorkerStops(w: WorkerId)
    | Resumes(expected: Status, progress: int, seenExpiresAt: Option<Time>, now: Time)
    | FailsOrExpires(seen: Session, status: Status, givenCode: Option<FailureCode>, now: Time)
    | Cancels(seen: Session, expected: Status, now: Time)
    | SetsLegacyExpiry(seen: Session, expiresAt: Time)

  function WorkerOf(s: System, w: WorkerId): Worker {
    if w in s.workers then s.workers[w] else Idle
  }

  /** The worker goes on when its transaction commits, and turns to `otherwise` when it does not. */
  function Attempt(s: System, w: WorkerId, tx: Option<Rows>, next: Worker, otherwise: Worker): System {
    if tx.Some? then s.(rows := tx.value, workers := s.workers[w := next])
    else s.(workers := s.workers[w := otherwise])
  }

  function Alone(s: System, tx: Option<Rows>): System {
    if tx.Some? then s.(rows := tx.value) else s
  }

  function CompletionToken(worker: Worker): Option<Token> {
    if worker.Idle? || worker.Writer? || worker.Releasing? then None else Some(worker.token)
  }

  /** A step that does not fit the worker's program order, or that the source rejects, changes nothing. */
  function Apply(s: System, step: Step): System {
    match step
    case WriterClaims(w, now) =>
      if !WorkerOf(s, w).Idle? then s
      else
        var token := s.nextToken;
        Attempt(s.(nextToken := token + 1), w, ClaimWriteTx(s.rows, token, now), Writer(token), Idle)
    case WriterCommits(w, partIndex, eTag, now) =>
      var worker := WorkerOf(s, w);
      var range := s.plan.range(partIndex);
      if !worker.Writer? || range.None? || (s.plan.multipart && !HasETag(Part(range.value, eTag))) then s
      else Attempt(s, w, CommitWriteTx(s.rows, worker.token, partIndex, Part(range.value, eTag), now), Idle, Releasing(worker.token))
    case WriterReleases(w) =>
      var worker := WorkerOf(s, w);
      if !worker.Writer? && !worker.Releasing? then s
      else Attempt(s, w, ReleaseWriteTx(s.rows, worker.token), Idle, Idle)
    case CompleterClaims(w, expected, seenExpiresAt, now) =>
      if !WorkerOf(s, w).Idle? then s
      else
        var token := s.nextToken;
        var tx := ClaimTx(s.rows, expected, seenExpiresAt, token, now);
        var next := if tx.Some? then Claimed(token, tx.value.session.nodeId, tx.value.session.storageFinalizedAt.Some?) else Idle;
        Attempt(s.(nextToken := token + 1), w, tx, next, Idle)
    case CompleterChecksParts(w) =>
      var worker := WorkerOf(s, w);
      if !worker.Claimed? then s
      else if s.plan.complete(s.rows.parts) then
        s.(workers := s.workers[w := Checked(worker.token, worker.nodeId, worker.finalized)])
      else s.(workers := s.workers[w := Failing(worker.token)])
    case CompleterRefreshes(w, seenExpiresAt, seenTransfer, now) =>
      var worker := WorkerOf(s, w);
      if !worker.Checked? || worker.finalized then s
      else Attempt(s, w, RefreshTx(s.rows, worker.token, seenExpiresAt, seenTransfer, now), worker, Failing(worker.token))
    case CompleterMarks(w, now) =>
      var worker := WorkerOf(s, w);
      if !worker.Checked? then s
      else if worker.finalized then s.(workers := s.workers[w := Stored(worker.token, worker.nodeId)])
      else
        var tx := MarkFinalizedTx(s.rows, worker.token, now);
        var next := if tx.Some? then Stored(worker.token, tx.value.session.nodeId) else Idle;
        Attempt(s, w, tx, next, Failing(worker.token))
    case CompleterWritesNode(w, newNode, now) =>
      var worker := WorkerOf(s, w);
      if !worker.Stored? then s
      else if worker.nodeId.Some? then s.(workers := s.workers[w := Placed(worker.token, worker.nodeId.value)])
      else Attempt(s, w, WriteNodeTx(s.rows, worker.token, newNode, now), Placed(worker.token, newNode), Failing(worker.token))
    case CompleterCompletes(w) =>
      var worker := WorkerOf(s, w);
      if !worker.Placed? then s
      else Attempt(s, w, CompleteTx(s.rows, worker.token, worker.placed), Idle, Failing(worker.token))
    case CompleterFails(w, seenExpiresAt, code, now) =>
      var token := CompletionToken(WorkerOf(s, w));
      if token.None? then s
      else Attempt(s, w, FailTx(s.rows, token.value, seenExpiresAt, code, now), Idle, Idle)
    case CompleterCancels(w, now) =>
      var token := CompletionToken(WorkerOf(s, w));
      if token.None? then s
      else Attempt(s, w, CancelHeldTx(s.rows, token.value, now), Idle, Idle)
    case WorkerStops(w) => s.(workers := s.workers[w := Idle])
    case Resumes(expected, progress, seenExpiresAt, now) =>
      Alone(s, ResumeTx(s.rows, expected, progress, seenExpiresAt, now))
    case FailsOrExpires(seen, status, code, now) =>
      Alone(s, TransitionFailureTx(s.rows, seen, status, code, now))
    case Cancels(seen, expected, now) =>
      Alone(s, CancelTx(s.rows, seen, expected, now))
    case SetsLegacyExpiry(seen, expiresAt) =>
      Alone(s, LegacyExpiryTx(s.rows, seen, expiresAt))
  }

  function Run(s: System, steps: seq<Step>): System
    decreases |steps|
  {
    if steps == [] then s else Run(Apply(s, steps[0]), steps[1..])
  }

  /** A session and its transfer as they are created: running, equal, and with nothing done yet. */
  predicate Initial(s: System) {
    && s.workers == map[]
    && s.rows.session.status == s.rows.transfer.status == Running
    && s.rows.session.failureCode == s.rows.transfer.failureCode == None
    && s.rows.session.completionToken.None?
    && s.rows.session.completionStartedAt.None?
    && s.rows.session.storageFinalizedAt.None?
    && s.rows.session.nodeId.None?
    && 0 <= s.rows.transfer.progress <= 1000
    && s.rows.parts == map[]
    && s.rows.audits == []
    && s.rows.nodeWrites == []
  }

  function TerminalAudits(audits: seq<AuditAction>): nat {
    if audits == [] then 0
    else TerminalAudits(audits[..|audits| - 1]) + if audits[|audits| - 1] == TransferHasFailed then 0 else 1
  }

  lemma TerminalAuditsAppend(audits: seq<AuditAction>, a: AuditAction)
    ensures TerminalAudits(audits + [a]) == TerminalAudits(audits) + if a == TransferHasFailed then 0 else 1
  {
    assert (audits + [a])[..|audits|] == audits;
  }

  /** What the rows satisfy whoever has worked on them. */
  predicate RowsOk(plan: Plan, r: Rows) {
    && (r.session.completionToken.Some? <==> r.session.completionStartedAt.Some?)
    && r.session.status == r.transfer.status
    && r.session.failureCode == r.transfer.failureCode
    && (r.session.storageFinalizedAt.Some? ==> plan.complete(r.parts))
    && (r.session.nodeId.Some? ==> r.session.storageFinalizedAt.Some?)
    && r.nodeWrites == (if r.session.nodeId.Some? then [r.session.nodeId.value] else [])
    && (r.session.status == Completed ==> r.session.nodeId.Some?)
    && TerminalAudits(r.audits) == (if IsTerminal(r.session.status) then 1 else 0)
    && 0 <= r.transfer.progress <= 1000
  }

  /** What a worker remembers is still true as long as its token is the current one. */
  predicate WorkerOk(plan: Plan, r: Rows, worker: Worker) {
    worker.Idle? || r.session.completionToken != Some(worker.token) ||
    match worker
    case Claimed(_, nodeId, finalized) =>
      && nodeId == r.session.nodeId
      && (finalized ==> r.session.storageFinalizedAt.Some?)
    case Checked(_, nodeId, finalized) =>
      && nodeId == r.session.nodeId
      && (finalized ==> r.session.storageFinalizedAt.Some?)
      && plan.complete(r.parts)
    case Stored(_, nodeId) =>
      && nodeId == r.session.nodeId
      && r.session.storageFinalizedAt.Some?
    case Placed(_, placed) => r.session.nodeId == Some(placed)
    case _ => true
  }

  predicate TokensOk(s: System) {
    && (s.rows.session.completionToken.Some? ==> s.rows.session.completionToken.value < s.nextToken)
    && (forall w :: w in s.workers && !s.workers[w].Idle? ==> s.workers[w].token < s.nextToken)
    && (forall v, w :: v in s.workers && w in s.workers && v != w && !s.workers[v].Idle? && !s.workers[w].Idle? ==>
          s.workers[v].token != s.workers[w].token)
  }

  predicate Inv(s: System) {
    && TokensOk(s)
    && RowsOk(s.plan, s.rows)
    && forall w :: w in s.workers ==> WorkerOk(s.plan, s.rows, s.workers[w])
  }

  // ---------- each transaction keeps the rows in order ----------

  lemma SettleFailureOk(plan: Plan, r: Rows, status: Status, code: FailureCode, needsLive: bool, now: Time)
    requires RowsOk(plan, r) && (status == Failed || status == Expired)
    requires SettleFailure(r, status, code, needsLive, now).Some?
    ensures var q := SettleFailure(r, status, code, needsLive, now).value;
      && q.transfer.status == status && q.transfer.failureCode == Some(code)
      && q.transfer.progress == r.transfer.progress
      && q.session == r.session && q.parts == r.parts && q.nodeWrites == r.nodeWrites
      && TerminalAudits(q.audits) == (if status == Expired then 1 else 0)
      && CanTransition(r.transfer.status, status)
  {
    TerminalAuditsAppend(r.audits, FailureAudit(status));
    assert status != Failed || FailureAudit(status) == TransferHasFailed;
    assert r.transfer.status == status || r.transfer.status in TransitionSources(status);
  }

  lemma SettleCancelOk(plan: Plan, r: Rows, needsLive: bool, now: Time)
    requires RowsOk(plan, r) && SettleCancel(r, needsLive, now).Some?
    ensures var q := SettleCancel(r, needsLive, now).value;
      && q.transfer.status == Canceled
      && (r.transfer.status != Canceled ==> q.transfer.failureCode.None?)
      && q.transfer.progress == r.transfer.progress
      && q.session == r.session && q.parts == r.parts && q.nodeWrites == r.nodeWrites
      && TerminalAudits(q.audits) == 1
      && CanTransition(r.transfer.status, Canceled)
  {
    TerminalAuditsAppend(r.audits, TransferWasCanceled);
  }

  /** Rows whose transfer has been settled are in order again once the session ends alike, or if it had ended so before. */
  lemma SettledOk(plan: Plan, r: Rows, q: Rows, status: Status, code: Option<FailureCode>)
    requires RowsOk(plan, r) && status in {Failed, Expired, Canceled}
    requires q.session == r.session && q.parts == r.parts && q.nodeWrites == r.nodeWrites
    requires q.transfer.status == status && q.transfer.failureCode == code && q.transfer.progress == r.transfer.progress
    requires TerminalAudits(q.audits) == if status == Failed then 0 else 1
    ensures RowsOk(plan, q.(session := Ended(q.session, status, code)))
    ensures r.session.status == status && r.session.failureCode == code ==> RowsOk(plan, q)
  {
  }

  lemma CompleteOk(plan: Plan, r: Rows, token: Token, nodeId: NodeId)
    requires RowsOk(plan, r) && CompleteTx(r, token, nodeId).Some?
    ensures RowsOk(plan, CompleteTx(r, token, nodeId).value)
  {
    TerminalAuditsAppend(r.audits, TransferWasCompleted);
  }

  lemma FailOk(plan: Plan, r: Rows, token: Token, seenExpiresAt: Option<Time>, code: FailureCode, now: Time)
    requires RowsOk(plan, r) && FailTx(r, token, seenExpiresAt, code, now).Some?
    ensures RowsOk(plan, FailTx(r, token, seenExpiresAt, code, now).value)
  {
    var expired := !Live(seenExpiresAt, now);
    var status, resolved := if expired then Expired else Failed, if expired then UploadSessionExpired else code;
    SettleFailureOk(plan, r, status, resolved, !expired, now);
    SettledOk(plan, r, SettleFailure(r, status, resolved, !expired, now).value, status, Some(resolved));
  }

  /** A transfer that was canceled before keeps its code, and then there is no session to end. */
  lemma CanceledOk(plan: Plan, r: Rows, needsLive: bool, now: Time)
    requires RowsOk(plan, r) && SettleCancel(r, needsLive, now).Some?
    ensures var q := SettleCancel(r, needsLive, now).value;
      && (r.session.status == Canceled ==> q == r)
      && (r.session.status != Canceled ==> RowsOk(plan, q.(session := Ended(q.session, Canceled, None))))
  {
    SettleCancelOk(plan, r, needsLive, now);
    if r.session.status != Canceled {
      SettledOk(plan, r, SettleCancel(r, needsLive, now).value, Canceled, None);
    }
  }

  lemma CancelHeldOk(plan: Plan, r: Rows, token: Token, now: Time)
    requires RowsOk(plan, r) && CancelHeldTx(r, token, now).Some?
    ensures RowsOk(plan, CancelHeldTx(r, token, now).value)
  {
    CanceledOk(plan, r, false, now);
  }

  lemma TransitionFailureOk(plan: Plan, r: Rows, seen: Session, status: Status, given: Option<FailureCode>, now: Time)
    requires RowsOk(plan, r) && TransitionFailureTx(r, seen, status, given, now).Some?
    ensures RowsOk(plan, TransitionFailureTx(r, seen, status, given, now).value)
  {
    var code := if status == Expired then UploadSessionExpired else if given.Some? then given.value else UploadFailed;
    SettleFailureOk(plan, r, status, code, status == Failed, now);
    SettledOk(plan, r, SettleFailure(r, status, code, status == Failed, now).value, status, Some(code));
  }

  lemma CancelOk(plan: Plan, r: Rows, seen: Session, expected: Status, now: Time)
    requires RowsOk(plan, r) && CancelTx(r, seen, expected, now).Some?
    ensures RowsOk(plan, CancelTx(r, seen, expected, now).value)
  {
    CanceledOk(plan, r, true, now);
  }

  // ---------- each step keeps the invariant ----------

  /** A worker whose token is not current after the step has nothing to remember. */
  predicate OthersOk(s: System, r: Rows, w: WorkerId) {
    forall v :: v in s.workers && v != w ==> WorkerOk(s.plan, r, s.workers[v])
  }

  lemma AttemptKeepsInv(s: System, w: WorkerId, tx: Option<Rows>, next: Worker, otherwise: Worker)
    requires TokensOk(s) && RowsOk(s.plan, s.rows) && OthersOk(s, s.rows, w)
    requires tx.Some? ==>
      && RowsOk(s.plan, tx.value)
      && OthersOk(s, tx.value, w)
      && WorkerOk(s.plan, tx.value, next)
      && (tx.value.session.completionToken.Some? ==> tx.value.session.completionToken.value < s.nextToken)
    requires tx.None? ==> WorkerOk(s.plan, s.rows, otherwise)
    requires forall x :: (x == next || x == otherwise) && !x.Idle? ==>
      x.token < s.nextToken && forall v :: v in s.workers && v != w && !s.workers[v].Idle? ==> s.workers[v].token != x.token
    ensures Inv(Attempt(s, w, tx, next, otherwise))
  {
  }

  /** Rows whose token is this worker's, or a fresh one, or none, leave the other workers nothing to remember. */
  lemma OthersForget(s: System, r: Rows, w: WorkerId)
    requires Inv(s)
    requires
      || r.session.completionToken.None?
      || r.session.completionToken.value >= s.nextToken
      || (!WorkerOf(s, w).Idle? && r.session.completionToken.value == WorkerOf(s, w).token)
    ensures OthersOk(s, r, w)
  {
  }

  lemma WriterClaimsKeepsInv(s: System, w: WorkerId, now: Time)
    requires Inv(s)
    ensures Inv(Apply(s, WriterClaims(w, now)))
  {
    var token := s.nextToken;
    var tx := ClaimWriteTx(s.rows, token, now);
    if WorkerOf(s, w).Idle? {
      if tx.Some? {
        OthersForget(s, tx.value, w);
      }
      AttemptKeepsInv(s.(nextToken := token + 1), w, tx, Writer(token), Idle);
    }
  }

  lemma WriterCommitsKeepsInv(s: System, step: Step)
    requires Inv(s) && step.WriterCommits?
    ensures Inv(Apply(s, step))
  {
    var worker := WorkerOf(s, step.w);
    var range := s.plan.range(step.partIndex);
    if worker.Writer? && range.Some? && (s.plan.multipart ==> HasETag(Part(range.value, step.eTag))) {
      var tx := CommitWriteTx(s.rows, worker.token, step.partIndex, Part(range.value, step.eTag), step.now);
      if tx.Some? {
        OthersForget(s, tx.value, step.w);
      }
      AttemptKeepsInv(s, step.w, tx, Idle, Releasing(worker.token));
    }
  }

  lemma WriterReleasesKeepsInv(s: System, w: WorkerId)
    requires Inv(s)
    ensures Inv(Apply(s, WriterReleases(w)))
  {
    var worker := WorkerOf(s, w);
    if worker.Writer? || worker.Releasing? {
      var tx := ReleaseWriteTx(s.rows, worker.token);
      if tx.Some? {
        OthersForget(s, tx.value, w);
      }
      AttemptKeepsInv(s, w, tx, Idle, Idle);
    }
  }

  lemma CompleterClaimsKeepsInv(s: System, step: Step)
    requires Inv(s) && step.CompleterClaims?
    ensures Inv(Apply(s, step))
  {
    var token := s.nextToken;
    var tx := ClaimTx(s.rows, step.expected, step.seenExpiresAt, token, step.now);
    var next := if tx.Some? then Claimed(token, tx.value.session.nodeId, tx.value.session.storageFinalizedAt.Some?) else Idle;
    if WorkerOf(s, step.w).Idle? {
      if tx.Some? {
        OthersForget(s, tx.value, step.w);
      }
      AttemptKeepsInv(s.(nextToken := token + 1), step.w, tx, next, Idle);
    }
  }

  /** A worker goes on by itself, under the token it has. */
  lemma WorkerTurnsKeepsInv(s: System, w: WorkerId, next: Worker)
    requires Inv(s) && WorkerOk(s.plan, s.rows, next)
    requires !next.Idle? ==> !WorkerOf(s, w).Idle? && next.token == WorkerOf(s, w).token
    ensures Inv(s.(workers := s.workers[w := next]))
  {
  }

  lemma CompleterChecksPartsKeepsInv(s: System, w: WorkerId)
    requires Inv(s)
    ensures Inv(Apply(s, CompleterChecksParts(w)))
  {
    var worker := WorkerOf(s, w);
    if worker.Claimed? {
      assert WorkerOk(s.plan, s.rows, worker);
      WorkerTurnsKeepsInv(s, w, if s.plan.complete(s.rows.parts)
                                then Checked(worker.token, worker.nodeId, worker.finalized) else Failing(worker.token));
    }
  }

  lemma CompleterRefreshesKeepsInv(s: System, step: Step)
    requires Inv(s) && step.CompleterRefreshes?
    ensures Inv(Apply(s, step))
  {
    var worker := WorkerOf(s, step.w);
    if worker.Checked? && !worker.finalized {
      var tx := RefreshTx(s.rows, worker.token, step.seenExpiresAt, step.seenTransfer, step.now);
      if tx.Some? {
        OthersForget(s, tx.value, step.w);
      }
      AttemptKeepsInv(s, step.w, tx, worker, Failing(worker.token));
    }
  }

  lemma CompleterMarksKeepsInv(s: System, w: WorkerId, now: Time)
    requires Inv(s)
    ensures Inv(Apply(s, CompleterMarks(w, now)))
  {
    var worker := WorkerOf(s, w);
    if worker.Checked? && !worker.finalized {
      var tx := MarkFinalizedTx(s.rows, worker.token, now);
      var next := if tx.Some? then Stored(worker.token, tx.value.session.nodeId) else Idle;
      if tx.Some? {
        OthersForget(s, tx.value, w);
      }
      AttemptKeepsInv(s, w, tx, next, Failing(worker.token));
    }
  }

  lemma CompleterWritesNodeKeepsInv(s: System, w: WorkerId, newNode: NodeId, now: Time)
    requires Inv(s)
    ensures Inv(Apply(s, CompleterWritesNode(w, newNode, now)))
  {
    var worker := WorkerOf(s, w);
    if worker.Stored? && worker.nodeId.None? {
      var tx := WriteNodeTx(s.rows, worker.token, newNode, now);
      if tx.Some? {
        OthersForget(s, tx.value, w);
      }
      AttemptKeepsInv(s, w, tx, Placed(worker.token, newNode), Failing(worker.token));
    }
  }

  lemma CompletesKeepsInv(s: System, step: Step)
    requires Inv(s) && step.CompleterCompletes?
    ensures Inv(Apply(s, step))
  {
    var worker := WorkerOf(s, step.w);
    if worker.Placed? {
      var tx := CompleteTx(s.rows, worker.token, worker.placed);
      if tx.Some? {
        CompleteOk(s.plan, s.rows, worker.token, worker.placed);
        OthersForget(s, tx.value, step.w);
      }
      AttemptKeepsInv(s, step.w, tx, Idle, Failing(worker.token));
    }
  }

  /** A completer gives up its token together with a change of the rows that takes the token away. */
  lemma EndKeepsInv(s: System, w: WorkerId, tx: Option<Rows>)
    requires Inv(s) && !WorkerOf(s, w).Idle?
    requires tx.Some? ==> RowsOk(s.plan, tx.value) && tx.value.session.completionToken.None?
    ensures Inv(Attempt(s, w, tx, Idle, Idle))
  {
    if tx.Some? {
      OthersForget(s, tx.value, w);
    }
    AttemptKeepsInv(s, w, tx, Idle, Idle);
  }

  lemma EndsTakeToken(r: Rows, token: Token, seenExpiresAt: Option<Time>, code: FailureCode, now: Time)
    ensures var tx := FailTx(r, token, seenExpiresAt, code, now); tx.Some? ==> tx.value.session.completionToken.None?
    ensures var tx := CancelHeldTx(r, token, now); tx.Some? ==> tx.value.session.completionToken.None?
  {
  }

  lemma FailsKeepsInv(s: System, step: Step)
    requires Inv(s) && step.CompleterFails?
    ensures Inv(Apply(s, step))
  {
    var token := CompletionToken(WorkerOf(s, step.w));
    if token.Some? {
      var tx := FailTx(s.rows, token.value, step.seenExpiresAt, step.code, step.now);
      if tx.Some? {
        FailOk(s.plan, s.rows, token.value, step.seenExpiresAt, step.code, step.now);
        EndsTakeToken(s.rows, token.value, step.seenExpiresAt, step.code, step.now);
      }
      EndKeepsInv(s, step.w, tx);
    }
  }

  lemma CancelsHeldKeepsInv(s: System, step: Step)
    requires Inv(s) && step.CompleterCancels?
    ensures Inv(Apply(s, step))
  {
    var token := CompletionToken(WorkerOf(s, step.w));
    if token.Some? {
      var tx := CancelHeldTx(s.rows, token.value, step.now);
      if tx.Some? {
        CancelHeldOk(s.plan, s.rows, token.value, step.now);
        EndsTakeToken(s.rows, token.value, None, UploadFailed, step.now);
      }
      EndKeepsInv(s, step.w, tx);
    }
  }

  lemma StopKeepsInv(s: System, w: WorkerId)
    requires Inv(s)
    ensures Inv(Apply(s, WorkerStops(w)))
  {
  }

  /** A step in nobody's name leaves the token alone, or takes it away from everybody. */
  lemma AloneKeepsInv(s: System, tx: Option<Rows>)
    requires Inv(s)
    requires tx.Some? ==> RowsOk(s.plan, tx.value)
    requires tx.Some? && tx.value.session.completionToken.Some? ==>
      tx.value.session == s.rows.session.(expiresAt := tx.value.session.expiresAt) && tx.value.parts == s.rows.parts
    ensures Inv(Alone(s, tx))
  {
  }

  lemma ResumeOk(plan: Plan, r: Rows, expected: Status, progress: int, seenExpiresAt: Option<Time>, now: Time)
    requires RowsOk(plan, r) && ResumeTx(r, expected, progress, seenExpiresAt, now).Some?
    ensures RowsOk(plan, ResumeTx(r, expected, progress, seenExpiresAt, now).value)
  {
  }

  lemma ResumesKeepsInv(s: System, expected: Status, progress: int, seenExpiresAt: Option<Time>, now: Time)
    requires Inv(s)
    ensures Inv(Apply(s, Resumes(expected, progress, seenExpiresAt, now)))
  {
    var tx := ResumeTx(s.rows, expected, progress, seenExpiresAt, now);
    if tx.Some? {
      ResumeOk(s.plan, s.rows, expected, progress, seenExpiresAt, now);
    }
    AloneKeepsInv(s, tx);
  }

  lemma OutsideFailureKeepsInv(s: System, seen: Session, status: Status, given: Option<FailureCode>, now: Time)
    requires Inv(s)
    ensures Inv(Apply(s, FailsOrExpires(seen, status, given, now)))
  {
    var tx := TransitionFailureTx(s.rows, seen, status, given, now);
    if tx.Some? {
      TransitionFailureOk(s.plan, s.rows, seen, status, given, now);
      TransitionFailureTokens(s.rows, seen, status, given, now);
    }
    AloneKeepsInv(s, tx);
  }

  lemma OutsideCancelKeepsInv(s: System, seen: Session, expected: Status, now: Time)
    requires Inv(s)
    ensures Inv(Apply(s, Cancels(seen, expected, now)))
  {
    var tx := CancelTx(s.rows, seen, expected, now);
    if tx.Some? {
      CancelOk(s.plan, s.rows, seen, expected, now);
    }
    AloneKeepsInv(s, tx);
  }

  lemma LegacyExpiryKeepsInv(s: System, seen: Session, expiresAt: Time)
    requires Inv(s)
    ensures Inv(Apply(s, SetsLegacyExpiry(seen, expiresAt)))
  {
    AloneKeepsInv(s, LegacyExpiryTx(s.rows, seen, expiresAt));
  }

  lemma TransitionFailureTokens(r: Rows, seen: Session, status: Status, given: Option<FailureCode>, now: Time)
    requires TransitionFailureTx(r, seen, status, given, now).Some?
    ensures var q := TransitionFailureTx(r, seen, status, given, now).value;
      q.session.completionToken.None? || (q.session == r.session && q.parts == r.parts)
  {
  }

  lemma ShapeStays(s: System, step: Step)
    ensures Apply(s, step).plan == s.plan
  {
  }

  lemma StepKeepsInv(s: System, step: Step)
    requires Inv(s)
    ensures Inv(Apply(s, step)) && Apply(s, step).plan == s.plan
  {
    ShapeStays(s, step);
    match step
    case WriterClaims(w, now) => WriterClaimsKeepsInv(s, w, now);
    case WriterCommits(_, _, _, _) => WriterCommitsKeepsInv(s, step);
    case WriterReleases(w) => WriterReleasesKeepsInv(s, w);
    case CompleterClaims(_, _, _, _) => CompleterClaimsKeepsInv(s, step);
    case CompleterChecksParts(w) => CompleterChecksPartsKeepsInv(s, w);
    case CompleterRefreshes(_, _, _, _) => CompleterRefreshesKeepsInv(s, step);
    case CompleterMarks(w, now) => CompleterMarksKeepsInv(s, w, now);
    case CompleterWritesNode(w, newNode, now) => CompleterWritesNodeKeepsInv(s, w, newNode, now);
    case CompleterCompletes(_) => CompletesKeepsInv(s, step);
    case CompleterFails(_, _, _, _) => FailsKeepsInv(s, step);
    case CompleterCancels(_, _) => CancelsHeldKeepsInv(s, step);
    case WorkerStops(w) => StopKeepsInv(s, w);
    case Resumes(expected, progress, seenExpiresAt, now) => ResumesKeepsInv(s, expected, progress, seenExpiresAt, now);
    case FailsOrExpires(seen, status, givenCode, now) => OutsideFailureKeepsInv(s, seen, status, givenCode, now);
    case Cancels(seen, expected, now) => OutsideCancelKeepsInv(s, seen, expected, now);
    case SetsLegacyExpiry(seen, expiresAt) => LegacyExpiryKeepsInv(s, seen, expiresAt);
  }

  lemma {:induction false} RunKeepsInv(s: System, steps: seq<Step>)
    requires Inv(s)
    ensures Inv(Run(s, steps)) && Run(s, steps).plan == s.plan
    decreases |steps|
  {
    if steps != [] {
      StepKeepsInv(s, steps[0]);
      RunKeepsInv(Apply(s, steps[0]), steps[1..]);
    }
  }

  lemma InitialInv(s: System)
    requires Initial(s)
    ensures Inv(s)
  {
  }

  // ---------- what every run guarantees ----------

  /**
   Whatever the interleaving: storage that is marked as finalized was finalized from a part table
   that cuts the file exactly.
   */
  lemma FinalizedPartsTile(s: System, steps: seq<Step>, shape: Shape)
    requires Initial(s) && s.plan == PlanOf(shape)
    ensures var r := Run(s, steps).rows;
      r.session.storageFinalizedAt.Some? ==> Tiles(r.parts, shape.sizeBytes)
  {
    InitialInv(s);
    RunKeepsInv(s, steps);
    var r := Run(s, steps).rows;
    if r.session.storageFinalizedAt.Some? {
      CompleteTableTiles(shape, r.parts);
    }
  }

  /** The things a step never undoes. */
  predicate Advances(q: Rows, r: Rows) {
    && (q.session.storageFinalizedAt.Some? ==> r.session.storageFinalizedAt.Some? && r.parts == q.parts)
    && (q.session.nodeId.Some? ==> r.session.nodeId == q.session.nodeId && r.nodeWrites == q.nodeWrites)
    && (IsTerminal(q.session.status) ==> r.session.status == q.session.status)
    && q.audits <= r.audits
    && q.transfer.progress <= r.transfer.progress
  }

  lemma StepAdvances(s: System, step: Step)
    requires Inv(s)
    ensures Advances(s.rows, Apply(s, step).rows)
    ensures CanTransition(s.rows.session.status, Apply(s, step).rows.session.status)
    ensures CanTransition(s.rows.transfer.status, Apply(s, step).rows.transfer.status)
  {
    SessionAdvances(s, step);
    StepKeepsInv(s, step);
  }

  lemma SessionAdvances(s: System, step: Step)
    requires Inv(s)
    ensures Advances(s.rows, Apply(s, step).rows)
    ensures CanTransition(s.rows.session.status, Apply(s, step).rows.session.status)
  {
    if step.CompleterFails? || step.CompleterCancels? || step.CompleterCompletes? {
      HolderEndAdvances(s, step);
    } else if step.FailsOrExpires? {
      if TransitionFailureTx(s.rows, step.seen, step.status, step.givenCode, step.now).Some? {
        TransitionFailureAdvances(s.plan, s.rows, step.seen, step.status, step.givenCode, step.now);
      }
    } else if step.Cancels? {
      if CancelTx(s.rows, step.seen, step.expected, step.now).Some? {
        CancelAdvances(s.plan, s.rows, step.seen, step.expected, step.now);
      }
    } else if step.Resumes? || step.SetsLegacyExpiry? {
      ResumeAdvances(s, step);
    } else {
      WorkAdvances(s, step);
    }
  }

  /** A step of a part writer, or of a completer that has not reached its end. */
  lemma WorkAdvances(s: System, step: Step)
    requires Inv(s)
    requires !step.CompleterFails? && !step.CompleterCancels? && !step.CompleterCompletes?
    requires !step.Resumes? && !step.FailsOrExpires? && !step.Cancels? && !step.SetsLegacyExpiry?
    ensures Advances(s.rows, Apply(s, step).rows)
    ensures CanTransition(s.rows.session.status, Apply(s, step).rows.session.status)
  {
    if step.WriterCommits? {
      WriterCommitAdvances(s, step);
    } else if step.CompleterWritesNode? {
      NodeWriteAdvances(s, step);
    } else if step.CompleterClaims? {
      ClaimAdvances(s, step);
    } else {
      QuietStep(s, step);
    }
  }

  lemma WriterCommitAdvances(s: System, step: Step)
    requires step.WriterCommits?
    ensures Advances(s.rows, Apply(s, step).rows)
    ensures Apply(s, step).rows.session.status == s.rows.session.status
  {
  }

  /** A node is written only where the session has none: the worker's memory is still true. */
  lemma NodeWriteAdvances(s: System, step: Step)
    requires Inv(s) && step.CompleterWritesNode?
    ensures Advances(s.rows, Apply(s, step).rows)
    ensures Apply(s, step).rows.session.status == s.rows.session.status
  {
    var worker := WorkerOf(s, step.w);
    if worker.Stored? && worker.nodeId.None? && WriteNodeTx(s.rows, worker.token, step.newNode, step.now).Some? {
      assert WorkerOk(s.plan, s.rows, worker);
      assert s.rows.session.nodeId.None?;
    }
  }

  lemma ClaimAdvances(s: System, step: Step)
    requires step.CompleterClaims?
    ensures Advances(s.rows, Apply(s, step).rows)
    ensures CanTransition(s.rows.session.status, Apply(s, step).rows.session.status)
  {
  }

  lemma QuietStep(s: System, step: Step)
    requires step.WriterClaims? || step.WriterReleases? || step.CompleterChecksParts? || step.CompleterRefreshes? ||
             step.CompleterMarks? || step.WorkerStops?
    ensures Advances(s.rows, Apply(s, step).rows)
    ensures Apply(s, step).rows.session.status == s.rows.session.status
  {
  }

  /** The columns that only a holder may touch while its lease is fresh. */
  predicate Untouched(q: Rows, r: Rows) {
    && r.session == q.session
    && r.parts == q.parts
    && r.nodeWrites == q.nodeWrites
    && r.audits == q.audits
    && r.transfer.status == q.transfer.status
  }

  lemma TransitionFailureAdvances(plan: Plan, r: Rows, seen: Session, status: Status, given: Option<FailureCode>, now: Time)
    requires RowsOk(plan, r) && TransitionFailureTx(r, seen, status, given, now).Some?
    ensures var q := TransitionFailureTx(r, seen, status, given, now).value;
      && Advances(r, q)
      && CanTransition(r.session.status, q.session.status)
      && (!Free(r.session, now) ==> Untouched(r, q))
  {
    var code := if status == Expired then UploadSessionExpired else if given.Some? then given.value else UploadFailed;
    SettleFailureOk(plan, r, status, code, status == Failed, now);
  }

  lemma CancelAdvances(plan: Plan, r: Rows, seen: Session, expected: Status, now: Time)
    requires RowsOk(plan, r) && CancelTx(r, seen, expected, now).Some?
    ensures var q := CancelTx(r, seen, expected, now).value;
      && Advances(r, q)
      && CanTransition(r.session.status, q.session.status)
      && (!Free(r.session, now) ==> Untouched(r, q))
  {
    SettleCancelOk(plan, r, true, now);
  }

  lemma ResumeTxAdvances(plan: Plan, r: Rows, expected: Status, progress: int, seenExpiresAt: Option<Time>, now: Time)
    requires RowsOk(plan, r) && ResumeTx(r, expected, progress, seenExpiresAt, now).Some?
    ensures var q := ResumeTx(r, expected, progress, seenExpiresAt, now).value;
      Advances(r, q) && CanTransition(r.session.status, q.session.status)
  {
  }

  lemma ResumeAdvances(s: System, step: Step)
    requires Inv(s) && (step.Resumes? || step.SetsLegacyExpiry?)
    ensures Advances(s.rows, Apply(s, step).rows)
    ensures CanTransition(s.rows.session.status, Apply(s, step).rows.session.status)
  {
    if step.Resumes? {
      if ResumeTx(s.rows, step.expected, step.progress, step.seenExpiresAt, step.now).Some? {
        ResumeTxAdvances(s.plan, s.rows, step.expected, step.progress, step.seenExpiresAt, step.now);
      }
    }
  }

  lemma FailTxAdvances(plan: Plan, r: Rows, token: Token, seenExpiresAt: Option<Time>, code: FailureCode, now: Time)
    requires RowsOk(plan, r) && FailTx(r, token, seenExpiresAt, code, now).Some?
    ensures var q := FailTx(r, token, seenExpiresAt, code, now).value;
      Advances(r, q) && CanTransition(r.session.status, q.session.status)
  {
  }

  lemma CancelHeldTxAdvances(plan: Plan, r: Rows, token: Token, now: Time)
    requires RowsOk(plan, r) && CancelHeldTx(r, token, now).Some?
    ensures var q := CancelHeldTx(r, token, now).value;
      Advances(r, q) && CanTransition(r.session.status, q.session.status)
  {
  }

  lemma CompleteTxAdvances(plan: Plan, r: Rows, token: Token, nodeId: NodeId)
    requires RowsOk(plan, r) && CompleteTx(r, token, nodeId).Some?
    ensures var q := CompleteTx(r, token, nodeId).value;
      Advances(r, q) && CanTransition(r.session.status, q.session.status)
  {
  }

  lemma HolderEndAdvances(s: System, step: Step)
    requires Inv(s) && (step.CompleterFails? || step.CompleterCancels? || step.CompleterCompletes?)
    ensures Advances(s.rows, Apply(s, step).rows)
    ensures CanTransition(s.rows.session.status, Apply(s, step).rows.session.status)
  {
    var worker := WorkerOf(s, step.w);
    var token := CompletionToken(worker);
    if token.Some? {
      match step
      case CompleterFails(_, seenExpiresAt, code, now) =>
        if FailTx(s.rows, token.value, seenExpiresAt, code, now).Some? {
          FailTxAdvances(s.plan, s.rows, token.value, seenExpiresAt, code, now);
        }
      case CompleterCancels(_, now) =>
        if CancelHeldTx(s.rows, token.value, now).Some? {
          CancelHeldTxAdvances(s.plan, s.rows, token.value, now);
        }
      case CompleterCompletes(_) =>
        if worker.Placed? && CompleteTx(s.rows, worker.token, worker.placed).Some? {
          CompleteTxAdvances(s.plan, s.rows, worker.token, worker.placed);
        }
    }
  }

  lemma {:induction false} RunAdvances(s: System, steps: seq<Step>)
    requires Inv(s)
    ensures Advances(s.rows, Run(s, steps).rows)
    decreases |steps|
  {
    if steps != [] {
      var next := Apply(s, steps[0]);
      StepKeepsInv(s, steps[0]);
      StepAdvances(s, steps[0]);
      RunAdvances(next, steps[1..]);
    }
  }

  /** Once finalized, the part table is frozen for the rest of the session's life. */
  lemma FinalizedPartsNeverChange(s: System, steps: seq<Step>, more: seq<Step>)
    requires Initial(s)
    requires Run(s, steps).rows.session.storageFinalizedAt.Some?
    ensures Run(Run(s, steps), more).rows.parts == Run(s, steps).rows.parts
    ensures Run(Run(s, steps), more).rows.session.storageFinalizedAt.Some?
  {
    InitialInv(s);
    RunKeepsInv(s, steps);
    RunAdvances(Run(s, steps), more);
  }

  /** One session writes at most one file node, and a completed session has written it from finalized storage. */
  lemma NodeWrittenAtMostOnce(s: System, steps: seq<Step>)
    requires Initial(s)
    ensures var r := Run(s, steps).rows;
      && |r.nodeWrites| <= 1
      && (r.session.status == Completed ==>
            && r.session.storageFinalizedAt.Some?
            && r.session.nodeId.Some?
            && r.nodeWrites == [r.session.nodeId.value])
  {
    InitialInv(s);
    RunKeepsInv(s, steps);
  }

  /** Session and transfer never disagree, and a transfer is audited as ended once exactly when it has ended. */
  lemma StatusesAgree(s: System, steps: seq<Step>)
    requires Initial(s)
    ensures var r := Run(s, steps).rows;
      && r.session.status == r.transfer.status
      && r.session.failureCode == r.transfer.failureCode
      && TerminalAudits(r.audits) == (if IsTerminal(r.transfer.status) then 1 else 0)
  {
    InitialInv(s);
    RunKeepsInv(s, steps);
  }

  /** Completed, expired and canceled are final. */
  lemma TerminalStatusIsFinal(s: System, steps: seq<Step>, more: seq<Step>)
    requires Initial(s)
    requires IsTerminal(Run(s, steps).rows.session.status)
    ensures Run(Run(s, steps), more).rows.session.status == Run(s, steps).rows.session.status
    ensures Run(Run(s, steps), more).rows.transfer.status == Run(s, steps).rows.transfer.status
  {
    InitialInv(s);
    RunKeepsInv(s, steps);
    RunAdvances(Run(s, steps), more);
    RunKeepsInv(Run(s, steps), more);
  }

  /** The token in whose name a step acts. */
  function ActingToken(s: System, step: Step): Option<Token> {
    if step.Resumes? || step.FailsOrExpires? || step.Cancels? || step.SetsLegacyExpiry? then None
    else
      var worker := WorkerOf(s, step.w);
      if worker.Idle? then None else Some(worker.token)
  }

  function Clock(step: Step): Option<Time> {
    match step
    case WriterClaims(_, now) => Some(now)
    case WriterCommits(_, _, _, now) => Some(now)
    case CompleterClaims(_, _, _, now) => Some(now)
    case CompleterRefreshes(_, _, _, now) => Some(now)
    case CompleterMarks(_, now) => Some(now)
    case CompleterWritesNode(_, _, now) => Some(now)
    case CompleterFails(_, _, _, now) => Some(now)
    case CompleterCancels(_, now) => Some(now)
    case Resumes(_, _, _, now) => Some(now)
    case FailsOrExpires(_, _, _, now) => Some(now)
    case Cancels(_, _, now) => Some(now)
    case _ => None
  }

  lemma HeldRefusesClaims(r: Rows, expected: Status, seenExpiresAt: Option<Time>, token: Token, now: Time)
    requires !Free(r.session, now)
    ensures ClaimTx(r, expected, seenExpiresAt, token, now).None? && ClaimWriteTx(r, token, now).None?
  {
  }

  lemma HeldRefusesResume(r: Rows, expected: Status, progress: int, seenExpiresAt: Option<Time>, now: Time)
    requires !Free(r.session, now)
    ensures ResumeTx(r, expected, progress, seenExpiresAt, now).None?
  {
  }

  lemma HeldKeepsExpiry(r: Rows, seen: Session, expiresAt: Time)
    requires r.session.completionToken.Some? && LegacyExpiryTx(r, seen, expiresAt).Some?
    ensures Untouched(r, LegacyExpiryTx(r, seen, expiresAt).value)
  {
  }

  /** Nobody but its holder touches a session while the lease is younger than fifteen minutes. */
  lemma LeaseExcludesOthers(s: System, step: Step)
    requires Inv(s) && s.rows.session.completionToken.Some?
    requires ActingToken(s, step) != s.rows.session.completionToken
    requires Clock(step).Some? ==> Clock(step).value < s.rows.session.completionStartedAt.value + 15 * 60 * 1000
    ensures Untouched(s.rows, Apply(s, step).rows)
  {
    match step
    case Resumes(expected, progress, seenExpiresAt, now) => HeldRefusesResume(s.rows, expected, progress, seenExpiresAt, now);
    case FailsOrExpires(seen, status, givenCode, now) =>
      if TransitionFailureTx(s.rows, seen, status, givenCode, now).Some? {
        TransitionFailureAdvances(s.plan, s.rows, seen, status, givenCode, now);
      }
    case Cancels(seen, expected, now) =>
      if CancelTx(s.rows, seen, expected, now).Some? {
        CancelAdvances(s.plan, s.rows, seen, expected, now);
      }
    case SetsLegacyExpiry(seen, expiresAt) =>
      if LegacyExpiryTx(s.rows, seen, expiresAt).Some? {
        HeldKeepsExpiry(s.rows, seen, expiresAt);
      }
    case CompleterClaims(_, expected, seenExpiresAt, now) => HeldRefusesClaims(s.rows, expected, seenExpiresAt, s.nextToken, now);
    case WriterClaims(_, now) => HeldRefusesClaims(s.rows, Running, None, s.nextToken, now);
    case _ => OutsiderStepUntouched(s, step);
  }

  /**
   And from then on anybody can take the session over: whoever reads its deadline and has a clock fifteen
   minutes after the holder's last sign of life, and before the deadlines, gets a new token.
   */
  lemma LeaseRunsOut(s: System, w: WorkerId, now: Time)
    requires Inv(s) && WorkerOf(s, w).Idle? && s.rows.session.status == Running
    requires s.rows.session.completionStartedAt.Some? ==> s.rows.session.completionStartedAt.value + 15 * 60 * 1000 <= now
    requires s.rows.session.expiresAt.Some? ==> now < s.rows.session.expiresAt.value
    requires s.rows.transfer.expiresAt.Some? ==> now < s.rows.transfer.expiresAt.value
    ensures var end := Apply(s, CompleterClaims(w, Running, s.rows.session.expiresAt, now)).rows.session;
      end.completionToken == Some(s.nextToken) && end.completionStartedAt == Some(now) && end.status == Running
    ensures s.rows.session.storageFinalizedAt.None? ==>
      Apply(s, WriterClaims(w, now)).rows.session.completionToken == Some(s.nextToken)
  {
  }

  /** A worker step under another token, claims aside. */
  lemma OutsiderStepUntouched(s: System, step: Step)
    requires ActingToken(s, step) != s.rows.session.completionToken
    requires !step.Resumes? && !step.FailsOrExpires? && !step.Cancels? && !step.SetsLegacyExpiry?
    requires !step.WriterClaims? && !step.CompleterClaims?
    ensures Apply(s, step).rows == s.rows
  {
  }

  lemma {:induction false} SupersededStaysSuperseded(s: System, t: Token, steps: seq<Step>)
    requires Inv(s) && t < s.nextToken && s.rows.session.completionToken != Some(t)
    ensures t < Run(s, steps).nextToken && Run(s, steps).rows.session.completionToken != Some(t)
    decreases |steps|
  {
    if steps != [] {
      StepKeepsInv(s, steps[0]);
      TokensNeverReturn(s, t, steps[0]);
      SupersededStaysSuperseded(Apply(s, steps[0]), t, steps[1..]);
    }
  }

  /** Apart from claims, a step keeps the token of the session or takes it away. */
  lemma OnlyClaimsBringTokens(s: System, step: Step)
    requires !step.WriterClaims? && !step.CompleterClaims?
    ensures Apply(s, step).nextToken == s.nextToken
    ensures Apply(s, step).rows.session.completionToken.None?
      || Apply(s, step).rows.session.completionToken == s.rows.session.completionToken
  {
  }

  lemma TokensNeverReturn(s: System, t: Token, step: Step)
    requires Inv(s) && t < s.nextToken && s.rows.session.completionToken != Some(t)
    ensures t < Apply(s, step).nextToken && Apply(s, step).rows.session.completionToken != Some(t)
  {
    if !step.WriterClaims? && !step.CompleterClaims? {
      OnlyClaimsBringTokens(s, step);
    }
  }

  lemma OldTokenChangesNothing(s: System, t: Token, step: Step)
    requires s.rows.session.completionToken != Some(t) && ActingToken(s, step) == Some(t)
    ensures Apply(s, step).rows == s.rows
  {
    if !step.WriterClaims? && !step.CompleterClaims? {
      OutsiderStepUntouched(s, step);
    }
  }

  /** A token that has been superseded is fenced off for good: whatever is done in its name changes no row. */
  lemma {:induction false} SupersededTokenIsInert(s: System, t: Token, steps: seq<Step>, step: Step)
    requires Inv(s) && t < s.nextToken && s.rows.session.completionToken != Some(t)
    requires ActingToken(Run(s, steps), step) == Some(t)
    ensures Apply(Run(s, steps), step).rows == Run(s, steps).rows
  {
    SupersededStaysSuperseded(s, t, steps);
    OldTokenChangesNothing(Run(s, steps), t, step);
  }
}
