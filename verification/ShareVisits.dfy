/** What visitors of a share get: when a step commits, and runs that use the limits up. */
module ShareVisits {
  import opened Options
  import opened TransferStates
  import opened DownloadIntents
  import opened ShareDownloads

  /** Everything that a commit asks for. */
  predicate MayCommit(s: System, id: IntentId, nodeId: nat, token: Token, visitorMatches: bool, now: Time) {
    && s.share.Some? && s.share.value.revokedAt.None?
    && now < s.share.value.createdAt + (if s.share.value.expiresDays > 0 then s.share.value.expiresDays else 0) * 86_400_000
    && id in s.intents && visitorMatches
    && s.intents[id].nodeId == nodeId && s.intents[id].claimToken == Some(token) && now < s.intents[id].expiresAt
    && if s.intents[id].purpose == Preview then s.intents[id].useCount < 64
       else
         && s.intents[id].useCount == 0 && s.intents[id].consumedAt.None?
         && (s.maxDownloads == 0 || |s.started| < s.maxDownloads)
  }

  /** A commit happens exactly then, and it gives the claim back, counts the use, and for a download notes that it has started. */
  lemma CommitsIff(s: System, id: IntentId, nodeId: nat, token: Token, visitorMatches: bool, now: Time)
    ensures var end := Apply(s, CommitClaim(id, nodeId, token, visitorMatches, now));
      if MayCommit(s, id, nodeId, token, visitorMatches, now) then
        && end.log == s.log + [Commit(id, token, now)]
        && end.started == (if s.intents[id].purpose == Download then s.started + [id] else s.started)
        && end.intents.Keys == s.intents.Keys && (forall i :: i in s.intents && i != id ==> end.intents[i] == s.intents[i])
        && end.intents[id] == s.intents[id].(
             claimToken := None, claimedAt := None, failureCode := None, updatedAt := now, useCount := s.intents[id].useCount + 1,
             consumedAt := match s.intents[id].purpose case Download => Some(now) case Preview => s.intents[id].consumedAt)
      else end == s
  {
  }

  /** What a visitor who wants to claim must have read. */
  predicate MayClaim(seen: Intent, nodeId: nat, now: Time) {
    && seen.nodeId == nodeId && now < seen.expiresAt
    && (seen.purpose == Download ==> seen.consumedAt.None? && seen.useCount == 0)
    && (seen.purpose == Preview ==> seen.useCount < 64)
    && !(seen.claimToken.Some? && seen.claimedAt.Some? && now < seen.claimedAt.value + 30_000)
  }

  /** The row is still the one that was read, as far as others can have changed it, and can be used. */
  predicate StillAsRead(row: Intent, seen: Intent, now: Time) {
    && row.claimToken == seen.claimToken && row.claimedAt == seen.claimedAt && row.failureCode == seen.failureCode
    && row.purpose == seen.purpose && row.updatedAt == seen.updatedAt && row.useCount == seen.useCount
    && row.consumedAt.None? && now < row.expiresAt
  }

  /** A claim succeeds exactly for a usable row that nobody has changed since it was read, and takes it under a token of its own. */
  lemma ClaimsIff(s: System, id: IntentId, seen: Intent, nodeId: nat, visitorMatches: bool, now: Time)
    ensures var end := Apply(s, Claim(id, seen, nodeId, visitorMatches, now));
      if !MayClaim(seen, nodeId, now) || !visitorMatches then end == s
      else if id in s.intents && StillAsRead(s.intents[id], seen, now) then
        end == s.(nextToken := s.nextToken + 1, intents := s.intents[id :=
          s.intents[id].(claimToken := Some(s.nextToken), claimedAt := Some(now), failureCode := None, updatedAt := now)])
      else end == s.(nextToken := s.nextToken + 1)
  {
  }

  /** A claim is given up exactly by its token, before the deadline, while nothing is consumed; a failure is noted, a release keeps what was noted. */
  lemma ClearsIff(s: System, id: IntentId, nodeId: nat, token: Token, failure: Option<FailureCode>, now: Time)
    requires id in s.intents
    ensures var row := s.intents[id];
      var end := Apply(s, ClearClaim(id, nodeId, token, failure, now));
      if row.nodeId == nodeId && row.claimToken == Some(token) && row.consumedAt.None? && now < row.expiresAt then
        end == s.(intents := s.intents[id := row.(claimToken := None, claimedAt := None, updatedAt := now,
          failureCode := match failure case None => row.failureCode case Some(code) => Some(code))])
      else end == s
  {
  }

  /** Exactly the rows whose deadline has come are pruned; a share that is removed is gone, and a revocation is noted once. */
  lemma PrunesAndEnds(s: System, now: Time)
    ensures var pruned := Apply(s, Prune(now));
      && (forall id :: id in pruned.intents <==> id in s.intents && now < s.intents[id].expiresAt)
      && (forall id :: id in pruned.intents ==> pruned.intents[id] == s.intents[id])
      && pruned == s.(intents := pruned.intents)
    ensures Apply(s, RemoveShare(now)) == s.(share := None)
    ensures s.share.Some? ==>
      Apply(s, Revoke(now)).share == Some(s.share.value.(revokedAt :=
        match s.share.value.revokedAt case None => Some(now) case Some(t) => Some(t)))
  {
  }

  lemma {:induction false} RunJoins(s: System, a: seq<Step>, b: seq<Step>)
    ensures Run(s, a + b) == Run(Run(s, a), b)
    decreases |a|
  {
    if a == [] {
      assert a + b == b;
    } else {
      assert (a + b)[0] == a[0] && (a + b)[1..] == a[1..] + b;
      RunJoins(Apply(s, a[0]), a[1..], b);
    }
  }

  lemma RunOfTwo(s: System, a: Step, b: Step)
    ensures Run(s, [a, b]) == Apply(Apply(s, a), b)
  {
    assert [a, b][1..] == [b] && [b][1..] == [];
    assert Run(Apply(s, a), [b]) == Apply(Apply(s, a), b);
  }

  // ---------- sixty-four previews ----------

  function Previewed(n: nat): Intent {
    NewIntent(0, Preview, 10, 0).(useCount := n, updatedAt := if n == 0 then 0 else 1)
  }

  function PreviewLog(n: nat): seq<Commit> {
    if n == 0 then [] else PreviewLog(n - 1) + [Commit(0, n - 1, 1)]
  }

  function AfterPreviews(n: nat): System {
    System(Some(Share(0, 1, None)), 0, map[0 := Previewed(n)], map[0 := Preview], n, [], PreviewLog(n))
  }

  function Previews(n: nat): seq<Step> {
    if n == 0 then [Create(0, 0, Preview, 10, 0)]
    else Previews(n - 1) + [Claim(0, Previewed(n - 1), 0, true, 1), CommitClaim(0, 0, n - 1, true, 1)]
  }

  lemma OnePreview(n: nat)
    requires n < 64
    ensures Run(AfterPreviews(n), [Claim(0, Previewed(n), 0, true, 1), CommitClaim(0, 0, n, true, 1)]) == AfterPreviews(n + 1)
  {
    var s, claim, commit := AfterPreviews(n), Claim(0, Previewed(n), 0, true, 1), CommitClaim(0, 0, n, true, 1);
    RunOfTwo(s, claim, commit);
    var claimed := Apply(s, claim);
    assert claimed == s.(intents := map[0 := Previewed(n).(claimToken := Some(n), claimedAt := Some(1), updatedAt := 1)], nextToken := n + 1);
    assert Apply(claimed, commit).intents == map[0 := Previewed(n + 1)];
  }

  lemma {:induction false} PreviewsRun(s: System, n: nat)
    requires s == System(Some(Share(0, 1, None)), 0, map[], map[], 0, [], []) && n <= 64
    ensures Run(s, Previews(n)) == AfterPreviews(n) && CommitsOf(PreviewLog(n), 0) == n == |PreviewLog(n)|
    decreases n
  {
    if n == 0 {
      assert Previews(0)[1..] == [];
      assert Run(s, Previews(0)) == Apply(s, Previews(0)[0]);
    } else {
      PreviewsRun(s, n - 1);
      OnePreview(n - 1);
      RunJoins(s, Previews(n - 1), [Claim(0, Previewed(n - 1), 0, true, 1), CommitClaim(0, 0, n - 1, true, 1)]);
      CommitAppends(PreviewLog(n - 1), Commit(0, n - 1, 1), 0);
    }
  }

  /** One preview intent commits 64 times in some run from the start; the reader is told so after the 64th commit and not before. */
  lemma PreviewsReachLimit(n: nat) returns (s: System, steps: seq<Step>)
    requires n <= 64
    ensures Initial(s) && 0 in Run(s, steps).intents && CommitsOf(Run(s, steps).log, 0) == n
    ensures Reported(Run(s, steps).intents[0], 1) == Completed <==> n == 64
  {
    s, steps := System(Some(Share(0, 1, None)), 0, map[], map[], 0, [], []), Previews(n);
    PreviewsRun(s, n);
  }

  // ---------- as many downloads as the share allows ----------

  function Downloaded(i: nat): Intent {
    NewIntent(0, Download, 10, 0).(useCount := 1, updatedAt := 1, consumedAt := Some(1))
  }

  function Ids(n: nat): seq<IntentId> {
    if n == 0 then [] else Ids(n - 1) + [n - 1]
  }

  function DownloadLog(n: nat): seq<Commit> {
    if n == 0 then [] else DownloadLog(n - 1) + [Commit(n - 1, n - 1, 1)]
  }

  function AfterDownloads(most: nat, n: nat): System {
    System(Some(Share(0, 1, None)), most, map i: nat | i < n :: Downloaded(i), map i: nat | i < n :: Downloaded(i).purpose, n, Ids(n), DownloadLog(n))
  }

  function DownloadOf(i: nat): seq<Step> {
    [Create(i, 0, Download, 10, 0)] + [Claim(i, FRESH, 0, true, 1), CommitClaim(i, 0, i, true, 1)]
  }

  function Downloads(n: nat): seq<Step> {
    if n == 0 then [] else Downloads(n - 1) + DownloadOf(n - 1)
  }

  /** Between creation and claim, and between claim and commit. */
  function Opened(most: nat, n: nat, row: Intent, tokens: nat): System {
    var s := AfterDownloads(most, n);
    s.(intents := s.intents[n := row], drawn := s.drawn[n := Download], nextToken := tokens)
  }

  const FRESH: Intent := NewIntent(0, Download, 10, 0)

  function Held(n: nat): Intent {
    FRESH.(claimToken := Some(n), claimedAt := Some(1), updatedAt := 1)
  }

  lemma DownloadOpens(most: nat, n: nat)
    ensures Apply(AfterDownloads(most, n), Create(n, 0, Download, 10, 0)) == Opened(most, n, FRESH, n)
    ensures Apply(Opened(most, n, FRESH, n), Claim(n, FRESH, 0, true, 1)) == Opened(most, n, Held(n), n + 1)
  {
    var s := Opened(most, n, FRESH, n);
    assert s.intents[n := Held(n)] == AfterDownloads(most, n).intents[n := Held(n)];
  }

  lemma DownloadCommits(most: nat, n: nat)
    requires most == 0 || n < most
    ensures Apply(Opened(most, n, Held(n), n + 1), CommitClaim(n, 0, n, true, 1)) == AfterDownloads(most, n + 1)
  {
    IdsCount(n);
    var end := Apply(Opened(most, n, Held(n), n + 1), CommitClaim(n, 0, n, true, 1));
    assert end.intents == AfterDownloads(most, n + 1).intents;
    assert end.drawn == AfterDownloads(most, n + 1).drawn;
  }

  lemma OneDownload(most: nat, n: nat)
    requires most == 0 || n < most
    ensures Run(AfterDownloads(most, n), DownloadOf(n)) == AfterDownloads(most, n + 1)
  {
    var s, create := AfterDownloads(most, n), Create(n, 0, Download, 10, 0);
    var claim, commit := Claim(n, FRESH, 0, true, 1), CommitClaim(n, 0, n, true, 1);
    DownloadOpens(most, n);
    DownloadCommits(most, n);
    assert [create][1..] == [];
    assert Run(s, [create]) == Apply(s, create);
    RunJoins(s, [create], [claim, commit]);
    RunOfTwo(Apply(s, create), claim, commit);
  }

  lemma {:induction false} IdsCount(n: nat)
    ensures |Ids(n)| == n
    decreases n
  {
    if n > 0 {
      IdsCount(n - 1);
    }
  }

  lemma {:induction false} DownloadsRun(s: System, most: nat, n: nat)
    requires s == System(Some(Share(0, 1, None)), most, map[], map[], 0, [], []) && (most == 0 || n <= most)
    ensures Run(s, Downloads(n)) == AfterDownloads(most, n)
    decreases n
  {
    if n == 0 {
      assert s == AfterDownloads(most, 0);
    } else {
      DownloadsRun(s, most, n - 1);
      OneDownload(most, n - 1);
      RunJoins(s, Downloads(n - 1), DownloadOf(n - 1));
    }
  }

  /** Any number of downloads up to the limit of the share starts in some run, and any number at all where the limit is zero. */
  lemma DownloadsReachLimit(most: nat, n: nat) returns (s: System, steps: seq<Step>)
    requires most == 0 || n <= most
    ensures Initial(s) && s.maxDownloads == most && |Run(s, steps).started| == n
  {
    s, steps := System(Some(Share(0, 1, None)), most, map[], map[], 0, [], []), Downloads(n);
    DownloadsRun(s, most, n);
    IdsCount(n);
  }
}
