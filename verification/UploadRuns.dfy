/** A worker who is not disturbed and whose deadlines lie ahead comes through: what the steps of an upload are for. */
module UploadRuns {
  import opened Options
  import opened TransferStates
  import opened UploadParts
  import opened UploadSessions
  import opened UploadProtocol

  lemma {:induction false} RunJoins(s: System, a: seq<Step>, b: seq<Step>)
    ensures Run(s, a + b) == Run(Run(s, a), b)
    decreases |a|
  {
    if a == [] {
      assert a + b == b;
    } else {
      assert (a + b)[0] == a[0] && (a + b)[1..] == a[1..] + b;
      RunJoins(Apply(s, a[0]), a[1..], b);
    }
  }

  lemma RunOfTwo(s: System, a: Step, b: Step)
    ensures Run(s, [a, b]) == Apply(Apply(s, a), b)
  {
    assert [a, b][1..] == [b] && [b][1..] == [];
    assert Run(Apply(s, a), [b]) == Apply(Apply(s, a), b);
  }

  /** Running, held by nobody, not finalized, with one deadline on both rows, and no worker busy. */
  predicate Open(s: System) {
    && s.rows.session.status == s.rows.transfer.status == Running
    && s.rows.session.completionToken.None? && s.rows.session.completionStartedAt.None?
    && s.rows.session.storageFinalizedAt.None? && s.rows.session.nodeId.None?
    && s.rows.session.expiresAt == s.rows.transfer.expiresAt
    && forall w :: w in s.workers ==> s.workers[w].Idle?
  }

  /** The `k`-th reading of the clock is `clock(k)`, and all of them lie before the deadline. */
  ghost predicate InTime(clock: nat -> Time, deadline: Option<Time>) {
    deadline.Some? ==> forall k: nat :: clock(k) < deadline.value
  }

  // ---------- writing the parts ----------

  function WriteOf(w: WorkerId, i: nat, eTag: Option<string>, clock: nat -> Time): seq<Step> {
    [WriterClaims(w, clock(2 * i)), WriterCommits(w, i, eTag, clock(2 * i + 1))]
  }

  /** The parts 0 .. n - 1, each by a writer of its own choice. */
  function Writes(who: nat -> WorkerId, eTag: nat -> Option<string>, clock: nat -> Time, n: nat): seq<Step> {
    if n == 0 then [] else Writes(who, eTag, clock, n - 1) + WriteOf(who(n - 1), n - 1, eTag(n - 1), clock)
  }

  /** The system with one part more, no token left, and one number drawn. */
  function WithPart(s: System, w: WorkerId, i: nat, part: Part): System {
    s.(rows := s.rows.(parts := s.rows.parts[i := part]), workers := s.workers[w := Idle], nextToken := s.nextToken + 1)
  }

  function Claiming(s: System, w: WorkerId, now: Time): System {
    s.(rows := s.rows.(session := s.rows.session.(completionToken := Some(s.nextToken), completionStartedAt := Some(now))),
       workers := s.workers[w := Writer(s.nextToken)], nextToken := s.nextToken + 1)
  }

  lemma WriteIsClaimed(s: System, w: WorkerId, now: Time)
    requires Open(s) && Live(s.rows.session.expiresAt, now)
    ensures Apply(s, WriterClaims(w, now)) == Claiming(s, w, now)
  {
  }

  lemma WriteIsCommitted(s: System, w: WorkerId, i: nat, eTag: Option<string>, before: Time, now: Time)
    requires Open(s) && Live(s.rows.session.expiresAt, now) && s.plan.range(i).Some?
    requires s.plan.multipart ==> HasETag(Part(s.plan.range(i).value, eTag))
    ensures Apply(Claiming(s, w, before), WriterCommits(w, i, eTag, now)) == WithPart(s, w, i, Part(s.plan.range(i).value, eTag))
  {
    var claimed := Claiming(s, w, before);
    assert claimed.workers[w := Idle] == s.workers[w := Idle];
    assert s.rows.session.(completionToken := None, completionStartedAt := None) == s.rows.session;
  }

  /** A part that is claimed and committed is in the table, nothing else in the rows has changed, and no token is left. */
  lemma PartIsWritten(s: System, w: WorkerId, i: nat, eTag: Option<string>, clock: nat -> Time)
    requires Open(s) && InTime(clock, s.rows.session.expiresAt)
    requires s.plan.range(i).Some? && (s.plan.multipart ==> HasETag(Part(s.plan.range(i).value, eTag)))
    ensures Run(s, WriteOf(w, i, eTag, clock)) == WithPart(s, w, i, Part(s.plan.range(i).value, eTag))
  {
    WriteIsClaimed(s, w, clock(2 * i));
    WriteIsCommitted(s, w, i, eTag, clock(2 * i), clock(2 * i + 1));
    RunOfTwo(s, WriterClaims(w, clock(2 * i)), WriterCommits(w, i, eTag, clock(2 * i + 1)));
  }

  lemma {:induction false} PartsAreWritten(s: System, who: nat -> WorkerId, eTag: nat -> Option<string>, clock: nat -> Time, n: nat)
    requires Open(s) && InTime(clock, s.rows.session.expiresAt) && s.rows.parts == map[] && CanWrite(s.plan, eTag, n)
    ensures HasWritten(s, Run(s, Writes(who, eTag, clock, n)), eTag, n)
    decreases n
  {
    if n == 0 {
      NothingIsWritten(s, eTag);
    } else {
      PartsAreWritten(s, who, eTag, clock, n - 1);
      var before := Run(s, Writes(who, eTag, clock, n - 1));
      NextIsWritten(s, before, who(n - 1), eTag, clock, n);
      OnePartMore(s, before, who(n - 1), eTag, n);
      LastWrite(s, who, eTag, clock, n);
    }
  }

  lemma NothingIsWritten(s: System, eTag: nat -> Option<string>)
    requires Open(s) && s.rows.parts == map[]
    ensures HasWritten(s, s, eTag, 0)
  {
  }

  lemma LastWrite(s: System, who: nat -> WorkerId, eTag: nat -> Option<string>, clock: nat -> Time, n: nat)
    requires n > 0
    ensures Run(s, Writes(who, eTag, clock, n))
      == Run(Run(s, Writes(who, eTag, clock, n - 1)), WriteOf(who(n - 1), n - 1, eTag(n - 1), clock))
  {
    RunJoins(s, Writes(who, eTag, clock, n - 1), WriteOf(who(n - 1), n - 1, eTag(n - 1), clock));
  }

  /** The plan knows the parts 0 .. n - 1, and their tags are there where they are needed. */
  ghost predicate CanWrite(plan: Plan, eTag: nat -> Option<string>, n: nat) {
    forall i: nat :: i < n ==> plan.range(i).Some? && (plan.multipart ==> HasETag(Part(plan.range(i).value, eTag(i))))
  }

  lemma NextIsWritten(s: System, before: System, w: WorkerId, eTag: nat -> Option<string>, clock: nat -> Time, n: nat)
    requires n > 0 && HasWritten(s, before, eTag, n - 1) && InTime(clock, s.rows.session.expiresAt) && CanWrite(s.plan, eTag, n)
    ensures s.plan.range(n - 1).Some?
    ensures Run(before, WriteOf(w, n - 1, eTag(n - 1), clock)) == WithPart(before, w, n - 1, Part(s.plan.range(n - 1).value, eTag(n - 1)))
  {
    MayWrite(s, before, eTag, clock, n);
    PartIsWritten(before, w, n - 1, eTag(n - 1), clock);
  }

  lemma MayWrite(s: System, before: System, eTag: nat -> Option<string>, clock: nat -> Time, n: nat)
    requires n > 0 && HasWritten(s, before, eTag, n - 1) && InTime(clock, s.rows.session.expiresAt) && CanWrite(s.plan, eTag, n)
    ensures Open(before) && InTime(clock, before.rows.session.expiresAt) && before.plan == s.plan && s.plan.range(n - 1).Some?
    ensures s.plan.multipart ==> HasETag(Part(s.plan.range(n - 1).value, eTag(n - 1)))
  {
  }

  /** The table lists exactly the parts sent, and nothing else in the rows has changed. */
  ghost predicate HasWritten(s: System, end: System, eTag: nat -> Option<string>, n: nat) {
    && Open(end) && end.plan == s.plan && end.rows == s.rows.(parts := end.rows.parts)
    && ListsParts(end.rows.parts, s.plan, eTag, n)
  }

  ghost predicate ListsParts(parts: map<int, Part>, plan: Plan, eTag: nat -> Option<string>, n: nat) {
    && parts.Keys == UpTo(n)
    && forall i: nat :: i in parts ==> plan.range(i).Some? && parts[i] == Part(plan.range(i).value, eTag(i))
  }

  lemma OnePartMore(s: System, before: System, w: WorkerId, eTag: nat -> Option<string>, n: nat)
    requires n > 0 && HasWritten(s, before, eTag, n - 1) && s.plan.range(n - 1).Some?
    ensures HasWritten(s, WithPart(before, w, n - 1, Part(s.plan.range(n - 1).value, eTag(n - 1))), eTag, n)
  {
    OnePartListed(before.rows.parts, s.plan, eTag, n);
  }

  lemma OnePartListed(parts: map<int, Part>, plan: Plan, eTag: nat -> Option<string>, n: nat)
    requires n > 0 && ListsParts(parts, plan, eTag, n - 1) && plan.range(n - 1).Some?
    ensures ListsParts(parts[n - 1 := Part(plan.range(n - 1).value, eTag(n - 1))], plan, eTag, n)
  {
    var more := parts[n - 1 := Part(plan.range(n - 1).value, eTag(n - 1))];
    assert more.Keys == parts.Keys + {n - 1};
    forall i: nat | i in more ensures plan.range(i).Some? && more[i] == Part(plan.range(i).value, eTag(i)) {
      if i != n - 1 {
        assert i in parts && more[i] == parts[i];
      }
    }
  }

  // ---------- completing ----------

  /** The deadlines that a completer reads on its way are those of the rows at that moment. */
  function Completion(s: System, w: WorkerId, node: NodeId, clock: nat -> Time, k: nat): seq<Step> {
    var claim := CompleterClaims(w, Running, s.rows.session.expiresAt, clock(k));
    var claimed := Apply(s, claim).rows;
    [claim, CompleterChecksParts(w),
     CompleterRefreshes(w, claimed.session.expiresAt, claimed.transfer.expiresAt, clock(k + 1)), CompleterMarks(w, clock(k + 2)),
     CompleterWritesNode(w, node, clock(k + 3)), CompleterCompletes(w)]
  }

  /** The deadline may only have moved away. */
  predicate NotEarlier(a: Option<Time>, b: Option<Time>) {
    if a.None? then b.None? else b.Some? && a.value <= b.value
  }

  lemma ClaimAndCheck(s: System, w: WorkerId, clock: nat -> Time, k: nat)
    requires Open(s) && InTime(clock, s.rows.session.expiresAt) && s.plan.complete(s.rows.parts)
    ensures var claim := CompleterClaims(w, Running, s.rows.session.expiresAt, clock(k));
      var end := Apply(Apply(s, claim), CompleterChecksParts(w));
      && end.plan == s.plan && WorkerOf(end, w) == Checked(s.nextToken, None, false)
      && end.rows == Apply(s, claim).rows
      && end.rows.session == s.rows.session.(failureCode := None, completionToken := Some(s.nextToken),
           completionStartedAt := Some(clock(k)), expiresAt := end.rows.session.expiresAt)
      && end.rows.transfer == s.rows.transfer.(failureCode := None, expiresAt := end.rows.transfer.expiresAt)
      && NotEarlier(s.rows.session.expiresAt, end.rows.session.expiresAt) && end.rows.transfer.expiresAt == end.rows.session.expiresAt
      && end.rows.parts == s.rows.parts && end.rows.audits == s.rows.audits && end.rows.nodeWrites == s.rows.nodeWrites
  {
  }

  /** A completer that has checked the parts and whose readings are in time. */
  predicate Underway(s: System, w: WorkerId, token: Token) {
    && WorkerOf(s, w) == Checked(token, None, false)
    && s.rows.session.status == s.rows.transfer.status == Running && s.rows.session.nodeId.None?
    && s.rows.session.completionToken == Some(token) && s.rows.session.expiresAt == s.rows.transfer.expiresAt
  }

  lemma RefreshAndMark(s: System, w: WorkerId, token: Token, clock: nat -> Time, k: nat)
    requires Underway(s, w, token) && InTime(clock, s.rows.session.expiresAt)
    ensures var refresh := CompleterRefreshes(w, s.rows.session.expiresAt, s.rows.transfer.expiresAt, clock(k + 1));
      var end := Apply(Apply(s, refresh), CompleterMarks(w, clock(k + 2)));
      && end.plan == s.plan && WorkerOf(end, w) == Stored(token, None)
      && end.rows.session == s.rows.session.(completionStartedAt := Some(clock(k + 2)), expiresAt := end.rows.session.expiresAt,
           storageFinalizedAt := Some(clock(k + 2)))
      && end.rows.transfer == s.rows.transfer.(expiresAt := end.rows.transfer.expiresAt)
      && NotEarlier(s.rows.session.expiresAt, end.rows.session.expiresAt) && end.rows.transfer.expiresAt == end.rows.session.expiresAt
      && end.rows.parts == s.rows.parts && end.rows.audits == s.rows.audits && end.rows.nodeWrites == s.rows.nodeWrites
  {
  }

  lemma WriteNodeAndComplete(s: System, w: WorkerId, token: Token, node: NodeId, clock: nat -> Time, k: nat)
    requires WorkerOf(s, w) == Stored(token, None) && s.rows.session.status == s.rows.transfer.status == Running
    requires s.rows.session.completionToken == Some(token) && InTime(clock, s.rows.session.expiresAt)
    ensures var end := Apply(Apply(s, CompleterWritesNode(w, node, clock(k + 3))), CompleterCompletes(w));
      && end.plan == s.plan && end.rows.parts == s.rows.parts
      && end.rows.session == s.rows.session.(status := Completed, failureCode := None, completionToken := None,
           completionStartedAt := None, nodeId := Some(node))
      && end.rows.transfer == s.rows.transfer.(status := Completed, failureCode := None, progress := 1000, nodeId := Some(node))
      && end.rows.audits == s.rows.audits + [TransferWasCompleted] && end.rows.nodeWrites == s.rows.nodeWrites + [node]
  {
  }

  /** What a completion leaves: both rows completed with the node, the parts as they were, and one audit event more. */
  predicate IsCompletion(r: Rows, end: Rows, node: NodeId) {
    && end.session.status == Completed && end.session.failureCode.None?
    && end.session.completionToken.None? && end.session.completionStartedAt.None?
    && end.session.storageFinalizedAt.Some? && end.session.nodeId == Some(node)
    && end.transfer.status == Completed && end.transfer.failureCode.None? && end.transfer.progress == 1000
    && end.transfer.nodeId == Some(node)
    && end.parts == r.parts && end.audits == r.audits + [TransferWasCompleted] && end.nodeWrites == r.nodeWrites + [node]
  }

  lemma CompletionCompletes(s: System, w: WorkerId, node: NodeId, clock: nat -> Time, k: nat)
    requires Open(s) && InTime(clock, s.rows.session.expiresAt) && s.plan.complete(s.rows.parts)
    ensures IsCompletion(s.rows, Run(s, Completion(s, w, node, clock, k)).rows, node)
  {
    var steps := Completion(s, w, node, clock, k);
    ClaimAndCheck(s, w, clock, k);
    var checked := Apply(Apply(s, steps[0]), steps[1]);
    RefreshAndMark(checked, w, s.nextToken, clock, k);
    var marked := Apply(Apply(checked, steps[2]), steps[3]);
    WriteNodeAndComplete(marked, w, s.nextToken, node, clock, k);
    SixSteps(s, steps);
  }

  lemma SixSteps(s: System, steps: seq<Step>)
    requires |steps| == 6
    ensures Run(s, steps) == Apply(Apply(Apply(Apply(Apply(Apply(s, steps[0]), steps[1]), steps[2]), steps[3]), steps[4]), steps[5])
  {
    var a, b, c := [steps[0], steps[1]], [steps[2], steps[3]], [steps[4], steps[5]];
    assert steps == a + (b + c);
    RunJoins(s, a, b + c);
    RunOfTwo(s, steps[0], steps[1]);
    RunJoins(Run(s, a), b, c);
    RunOfTwo(Run(s, a), steps[2], steps[3]);
    RunOfTwo(Run(Run(s, a), b), steps[4], steps[5]);
  }

  /** The bytes of part `i`, counted from the first, and the tag it was stored under. */
  predicate IsPart(part: Part, shape: Shape, i: nat, eTag: Option<string>) {
    var next := (i + 1) * shape.chunkSizeBytes;
    && part.range.startByte == i * shape.chunkSizeBytes
    && part.range.endByte == (if next <= shape.sizeBytes then next else shape.sizeBytes) - 1
    && part.range.sizeBytes == part.range.endByte - part.range.startByte + 1
    && part.eTag == eTag
  }

  /**
   From a new session on: writers who claim and commit each part of the file, each once, and a completer who
   claims, checks, refreshes, marks, writes the node and completes come through, whatever their readings of the
   clock before the deadline. The file is completed with exactly the parts sent, and its node is on both rows.
   */
  lemma UndisturbedUploadCompletes(s: System, shape: Shape, n: nat, who: nat -> WorkerId, eTag: nat -> Option<string>,
                                   w: WorkerId, node: NodeId, clock: nat -> Time) returns (steps: seq<Step>)
    requires Initial(s) && s.plan == PlanOf(shape) && (shape.sizeBytes == 0 || shape.chunkSizeBytes > 0)
    requires s.rows.session.expiresAt == s.rows.transfer.expiresAt && InTime(clock, s.rows.session.expiresAt)
    requires n == PartCount(shape) && (shape.multipart ==> forall i: nat :: i < n ==> eTag(i).Some? && eTag(i).value != "")
    ensures |steps| == 2 * n + 6
    ensures var end := Run(s, steps).rows;
      && end.session.status == Completed && end.transfer.status == Completed
      && end.session.failureCode.None? && end.transfer.failureCode.None? && end.transfer.progress == 1000
      && end.session.nodeId == Some(node) && end.transfer.nodeId == Some(node)
      && end.session.completionToken.None? && end.session.storageFinalizedAt.Some?
      && end.audits == [TransferWasCompleted] && end.nodeWrites == [node]
    ensures var parts := Run(s, steps).rows.parts;
      && (forall i :: i in parts <==> 0 <= i < n)
      && forall i: nat :: i in parts ==> IsPart(parts[i], shape, i, eTag(i))
  {
    var writes := Writes(who, eTag, clock, n);
    RangesExist(shape, n);
    PartsAreWritten(s, who, eTag, clock, n);
    var written := Run(s, writes);
    TableIsComplete(shape, written.rows.parts, eTag, n);
    var completion := Completion(written, w, node, clock, 2 * n);
    CompletionCompletes(written, w, node, clock, 2 * n);
    RunJoins(s, writes, completion);
    WritesAreTwo(who, eTag, clock, n);
    steps := writes + completion;
    forall i: nat | i in written.rows.parts ensures IsPart(written.rows.parts[i], shape, i, eTag(i)) {
      PartIs(shape, i, eTag(i));
    }
  }

  lemma {:induction false} WritesAreTwo(who: nat -> WorkerId, eTag: nat -> Option<string>, clock: nat -> Time, n: nat)
    ensures |Writes(who, eTag, clock, n)| == 2 * n
    decreases n
  {
    if n > 0 {
      WritesAreTwo(who, eTag, clock, n - 1);
    }
  }

  lemma RangesExist(shape: Shape, n: nat)
    requires (shape.sizeBytes == 0 || shape.chunkSizeBytes > 0) && n == PartCount(shape)
    ensures forall i: nat :: i < n ==> ExpectedRange(shape, i).Some?
  {
  }

  lemma TableIsComplete(shape: Shape, parts: map<int, Part>, eTag: nat -> Option<string>, n: nat)
    requires (shape.sizeBytes == 0 || shape.chunkSizeBytes > 0) && n == PartCount(shape)
    requires ListsParts(parts, PlanOf(shape), eTag, n)
    requires shape.multipart ==> forall i: nat :: i < n ==> eTag(i).Some? && eTag(i).value != ""
    ensures CompleteTable(shape, parts)
  {
    forall i | i in parts ensures PartMatches(shape, i, parts[i]) {
      assert PlanOf(shape).range(i) == ExpectedRange(shape, i);
    }
  }

  lemma PartIs(shape: Shape, i: nat, eTag: Option<string>)
    requires ExpectedRange(shape, i).Some?
    ensures IsPart(Part(ExpectedRange(shape, i).value, eTag), shape, i, eTag)
  {
    RangeBounds(shape, i);
    assert (i + 1) * shape.chunkSizeBytes == i * shape.chunkSizeBytes + shape.chunkSizeBytes;
  }
}
