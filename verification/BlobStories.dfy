/** What becomes of an object: how it gets into a row, from row to row, and out of the store. */
module BlobStories {
  import opened Options
  import opened TransferStates
  import opened FileTrees
  import opened BlobReferences

  lemma RunOfThree(s: State, a: Step, b: Step, c: Step)
    ensures Run(s, [a, b, c]) == Apply(Apply(Apply(s, a), b), c)
  {
    assert [a, b, c][1..] == [b, c] && [b, c][1..] == [c] && [c][1..] == [];
    assert Run(Apply(Apply(s, a), b), [c]) == Apply(Apply(Apply(s, a), b), c);
    assert Run(Apply(s, a), [b, c]) == Run(Apply(Apply(s, a), b), [c]);
  }

  lemma {:induction false} RunJoins(s: State, a: seq<Step>, b: seq<Step>)
    ensures Run(s, a + b) == Run(Run(s, a), b)
    decreases |a|
  {
    if a == [] {
      assert a + b == b;
    } else {
      assert (a + b)[0] == a[0] && (a + b)[1..] == a[1..] + b;
      RunJoins(Apply(s, a[0]), a[1..], b);
    }
  }

  // ---------- into a row ----------

  /** An upload that is stored, seen and finalized, and ready to be written. */
  function Prepared(s: State, k: ObjectKey, target: Option<ObjectKey>): State {
    s.(origins := s.origins[k := Upload(Running, true, false, target)], stored := s.stored + {k}, seen := s.seen + {k})
  }

  /** What a session remembers of the node it is going to overwrite. */
  function ContentOf(s: State, target: Option<NodeId>): Option<ObjectKey> {
    if target.Some? && target.value in s.nodes then s.nodes[target.value] else None
  }

  lemma UploadGetsReady(s: State, k: ObjectKey, target: Option<NodeId>)
    requires k !in s.origins
    ensures Run(s, [OpenUpload(k, target), StoreObject(k), SeeObject(k)] + [MarkFinalized(k)]) == Prepared(s, k, ContentOf(s, target))
  {
    var first := [OpenUpload(k, target), StoreObject(k), SeeObject(k)];
    RunOfThree(s, first[0], first[1], first[2]);
    RunJoins(s, first, [MarkFinalized(k)]);
    var seen := Apply(Apply(Apply(s, first[0]), first[1]), first[2]);
    assert [MarkFinalized(k)][1..] == [];
    assert Run(seen, [MarkFinalized(k)]) == Apply(seen, MarkFinalized(k));
    UploadIsSeen(s, k, target);
    UploadIsMarked(s, k, ContentOf(s, target));
  }

  function Uploaded(s: State, k: ObjectKey, target: Option<ObjectKey>): State {
    s.(origins := s.origins[k := Upload(Running, false, false, target)], stored := s.stored + {k}, seen := s.seen + {k})
  }

  lemma UploadIsSeen(s: State, k: ObjectKey, target: Option<NodeId>)
    requires k !in s.origins
    ensures Apply(Apply(Apply(s, OpenUpload(k, target)), StoreObject(k)), SeeObject(k)) == Uploaded(s, k, ContentOf(s, target))
  {
  }

  lemma UploadIsMarked(s: State, k: ObjectKey, target: Option<ObjectKey>)
    requires k !in s.origins
    ensures Apply(Uploaded(s, k, target), MarkFinalized(k)) == Prepared(s, k, target)
  {
    assert Uploaded(s, k, target).origins[k := Upload(Running, true, false, target)] == Prepared(s, k, target).origins;
  }

  /** A prepared upload becomes a node of its own, or the content of a node whose old content stays as a version, and is stored. */
  lemma UploadIsWritten(s: State, k: ObjectKey, n: NodeId, v: VersionId, target: Option<ObjectKey>)
    requires k !in s.origins
    ensures n !in s.nodes ==>
      var end := Apply(Prepared(s, k, target), UploadNewNode(k, n));
      end.nodes == s.nodes[n := Some(k)] && end.versions == s.versions && k in end.stored
    ensures HasContent(s, n) && v !in s.versions ==>
      var end := Apply(Prepared(s, k, target), UploadVersion(k, n, v));
      && end.nodes == s.nodes[n := Some(k)] && end.versions == s.versions[v := Version(n, s.nodes[n].value)] && k in end.stored
  {
  }

  /** An edit that is saved becomes the content of its node; what was there stays as a version. */
  lemma EditIsWritten(s: State, k: ObjectKey, n: NodeId, v: VersionId)
    requires k !in s.origins && n in s.nodes && s.nodes[n].Some? && v !in s.versions
    ensures var end := Run(s, [OpenEdit(k), SaveEdit(k), ReplaceContent(k, n, v)]);
      && end.nodes == s.nodes[n := Some(k)] && end.versions == s.versions[v := Version(n, s.nodes[n].value)]
      && end.stored == s.stored + {k} && end.cleanups == s.cleanups
  {
    RunOfThree(s, OpenEdit(k), SaveEdit(k), ReplaceContent(k, n, v));
    EditIsSaved(s, k);
    var saved := Apply(Apply(s, OpenEdit(k)), SaveEdit(k));
    assert Apply(saved, ReplaceContent(k, n, v)).nodes == s.nodes[n := Some(k)];
  }

  lemma EditIsSaved(s: State, k: ObjectKey)
    requires k !in s.origins
    ensures var saved := Apply(Apply(s, OpenEdit(k)), SaveEdit(k));
      && saved.nodes == s.nodes && saved.versions == s.versions && saved.cleanups == s.cleanups
      && saved.stored == s.stored + {k} && k in saved.origins && saved.origins[k] == Edit(true, false, false)
  {
  }

  // ---------- from row to row ----------

  /** A copy has the same content; a version that is restored becomes the content, and what was there stays as a version. */
  lemma RowsTakeOver(s: State, n: NodeId, copy: NodeId, v: VersionId, archived: VersionId)
    ensures n in s.nodes && copy !in s.nodes ==> Apply(s, CopyNode(n, copy)) == s.(nodes := s.nodes[copy := s.nodes[n]])
    ensures n in s.nodes && s.nodes[n].Some? && v in s.versions && s.versions[v].nodeId == n && archived !in s.versions ==>
      Apply(s, RestoreVersion(n, v, archived)) ==
        s.(nodes := s.nodes[n := Some(s.versions[v].key)], versions := s.versions[archived := Version(n, s.nodes[n].value)])
    ensures n !in s.nodes ==> Apply(s, AddFolder(n)) == s.(nodes := s.nodes[n := None])
    ensures n in s.nodes ==> Apply(s, AddFolder(n)) == s
  {
  }

  // ---------- out of the store ----------

  /** Some row outside the tree points to the key. */
  predicate PointedToOutside(s: State, k: ObjectKey, ids: set<NodeId>) {
    || (exists n :: n in s.nodes && n !in ids && s.nodes[n] == Some(k))
    || (exists v :: v in s.versions && s.versions[v].nodeId !in ids && s.versions[v].key == k)
  }

  predicate PointedToInside(s: State, k: ObjectKey, ids: set<NodeId>) {
    || (exists n :: n in s.nodes && n in ids && s.nodes[n] == Some(k))
    || (exists v :: v in s.versions && s.versions[v].nodeId in ids && s.versions[v].key == k)
  }

  /** The last two steps for one key: it is looked up, and removed if it was found unreferenced. */
  function CleanUp(w: WorkerId, k: ObjectKey): seq<Step> {
    [LookUp(w, {k}), RemoveObject(w, k)]
  }

  lemma KeyIsCleanedUp(s: State, w: WorkerId, k: ObjectKey)
    requires k in CleanupOf(s, w).candidates && k !in CleanupOf(s, w).unreferenced
    ensures var end := Run(s, CleanUp(w, k));
      && end.stored == (if Referenced(s, k) then s.stored else s.stored - {k})
      && end.nodes == s.nodes && end.versions == s.versions
  {
    var looked := Apply(s, LookUp(w, {k}));
    assert CleanUp(w, k)[1..] == [RemoveObject(w, k)] && [RemoveObject(w, k)][1..] == [];
    assert Run(looked, [RemoveObject(w, k)]) == Apply(looked, RemoveObject(w, k));
    assert k in CleanupOf(looked, w).unreferenced <==> !Referenced(s, k);
  }

  /** After a deletion the rows of the tree are gone, and an object of it goes exactly when no row outside points to it. */
  lemma DeletionFreesExactly(s: State, ids: set<NodeId>, w: WorkerId, k: ObjectKey)
    requires Inv(s) && PointedToInside(s, k, ids)
    ensures var end := Run(s, [DeleteTree(ids, w)] + CleanUp(w, k));
      && (forall n :: n in end.nodes <==> n in s.nodes && n !in ids) && (forall n :: n in end.nodes ==> end.nodes[n] == s.nodes[n])
      && (forall v :: v in end.versions <==> v in s.versions && s.versions[v].nodeId !in ids)
      && (k in end.stored <==> PointedToOutside(s, k, ids))
      && end.stored + {k} == s.stored
  {
    var deleted := Apply(s, DeleteTree(ids, w));
    assert Referenced(s, k);
    ReferencedIsOk(s, k);
    assert [DeleteTree(ids, w)][1..] == [];
    assert Run(s, [DeleteTree(ids, w)]) == deleted;
    RunJoins(s, [DeleteTree(ids, w)], CleanUp(w, k));
    assert k in KeysOfTree(s, ids);
    KeyIsCleanedUp(deleted, w, k);
    OutsideStays(s, ids, w, k);
  }

  lemma OutsideStays(s: State, ids: set<NodeId>, w: WorkerId, k: ObjectKey)
    ensures Referenced(Apply(s, DeleteTree(ids, w)), k) <==> PointedToOutside(s, k, ids)
  {
    var deleted := Apply(s, DeleteTree(ids, w));
    assert forall n :: n in deleted.nodes <==> n in s.nodes && n !in ids;
    if Referenced(deleted, k) {
      if n :| n in deleted.nodes && deleted.nodes[n] == Some(k) {
        assert s.nodes[n] == Some(k);
      } else {
        var v :| v in deleted.versions && deleted.versions[v].key == k;
        assert s.versions[v].key == k;
      }
    }
    if PointedToOutside(s, k, ids) {
      if n :| n in s.nodes && n !in ids && s.nodes[n] == Some(k) {
        assert deleted.nodes[n] == Some(k);
      } else {
        var v :| v in s.versions && s.versions[v].nodeId !in ids && s.versions[v].key == k;
        assert deleted.versions[v].key == k;
      }
    }
  }

  /** The same for one version that is pruned. */
  lemma PruningFreesExactly(s: State, v: VersionId, w: WorkerId)
    requires Inv(s) && v in s.versions
    ensures var k := s.versions[v].key;
      var end := Run(s, [PruneVersion(v, w)] + CleanUp(w, k));
      && end.nodes == s.nodes && end.versions == s.versions - {v} && end.stored + {k} == s.stored
      && (k in end.stored <==>
            (exists n :: n in s.nodes && s.nodes[n] == Some(k)) || (exists u :: u in s.versions && u != v && s.versions[u].key == k))
  {
    var k, pruned := s.versions[v].key, Apply(s, PruneVersion(v, w));
    assert Referenced(s, k);
    ReferencedIsOk(s, k);
    assert [PruneVersion(v, w)][1..] == [];
    assert Run(s, [PruneVersion(v, w)]) == pruned;
    RunJoins(s, [PruneVersion(v, w)], CleanUp(w, k));
    KeyIsCleanedUp(pruned, w, k);
    assert forall u :: u in s.versions && u != v ==> u in pruned.versions && pruned.versions[u] == s.versions[u];
    assert pruned.nodes == s.nodes;
  }

  /** An overwriting upload replaces exactly the content it found, and that goes when no other row points to it. */
  lemma OverwriteFreesExactly(s: State, k: ObjectKey, n: NodeId, w: WorkerId)
    requires Inv(s) && CanWrite(s, k) && n in s.nodes && s.nodes[n].Some? && s.nodes[n] != Some(k)
    requires s.origins[k].target == s.nodes[n]
    ensures var before := s.nodes[n].value;
      var end := Run(s, [UploadOverwrite(k, n, w)] + CleanUp(w, before));
      && end.nodes == s.nodes[n := Some(k)] && end.versions == s.versions && end.stored + {before} == s.stored
      && (before in end.stored <==>
            (exists m :: m in s.nodes && m != n && s.nodes[m] == Some(before)) || (exists v :: v in s.versions && s.versions[v].key == before))
  {
    var before, written := s.nodes[n].value, Apply(s, UploadOverwrite(k, n, w));
    assert Referenced(s, before);
    ReferencedIsOk(s, before);
    assert [UploadOverwrite(k, n, w)][1..] == [];
    assert Run(s, [UploadOverwrite(k, n, w)]) == written;
    RunJoins(s, [UploadOverwrite(k, n, w)], CleanUp(w, before));
    KeyIsCleanedUp(written, w, before);
    assert forall m :: m in s.nodes && m != n ==> written.nodes[m] == s.nodes[m];
  }

  /** A session that found other content there does not overwrite it. */
  lemma OverwriteNeedsTarget(s: State, k: ObjectKey, n: NodeId, w: WorkerId)
    requires IsUpload(s, k) && n in s.nodes && s.origins[k].target != s.nodes[n]
    ensures Apply(s, UploadOverwrite(k, n, w)) == s
  {
  }

  /** The clean-up after an overwrite can be repeated at any time, and frees the old object as soon as no row points to it. */
  lemma RepeatedCleanUpFreesExactly(s: State, k: ObjectKey, w: WorkerId)
    requires IsUpload(s, k) && s.origins[k].written && s.origins[k].target.Some?
    requires s.origins[k].target.value !in CleanupOf(s, w).unreferenced
    ensures var before := s.origins[k].target.value;
      var end := Run(s, [RepeatOverwriteCleanup(k, w)] + CleanUp(w, before));
      && end.nodes == s.nodes && end.versions == s.versions
      && end.stored ==
           if (exists n :: n in s.nodes && s.nodes[n] == Some(before)) || (exists v :: v in s.versions && s.versions[v].key == before)
           then s.stored else s.stored - {before}
  {
    var before, nominated := s.origins[k].target.value, Apply(s, RepeatOverwriteCleanup(k, w));
    assert [RepeatOverwriteCleanup(k, w)][1..] == [];
    assert Run(s, [RepeatOverwriteCleanup(k, w)]) == nominated;
    RunJoins(s, [RepeatOverwriteCleanup(k, w)], CleanUp(w, before));
    KeyIsCleanedUp(nominated, w, before);
  }

  /** The status of an upload changes as the table of statuses says, and nothing else does. */
  lemma StatusChanges(s: State, k: ObjectKey, to: Status)
    requires IsUpload(s, k)
    ensures var end := Apply(s, ChangeStatus(k, to));
      && end == s.(origins := end.origins) && IsUpload(end, k)
      && end.origins[k].status == (if CanTransition(s.origins[k].status, to) then to else s.origins[k].status)
      && end.origins == s.origins[k := s.origins[k].(status := end.origins[k].status)]
  {
  }

  /** What was never written is canceled or given up together with its object. */
  lemma UnwrittenGoes(s: State, k: ObjectKey, w: WorkerId)
    requires Inv(s) && k in s.origins && !s.origins[k].written && k !in CleanupOf(s, w).unreferenced
    ensures s.origins[k].Upload? && s.origins[k].status in {Pending, Running, Paused, Failed} ==>
      k !in Run(s, [CancelUpload(k, w)] + CleanUp(w, k)).stored
    ensures s.origins[k].Edit? ==> k !in Run(s, [GiveUpEdit(k, w)] + CleanUp(w, k)).stored
  {
    if Referenced(s, k) {
      ReferencedIsOk(s, k);
    }
    var step := if s.origins[k].Upload? then CancelUpload(k, w) else GiveUpEdit(k, w);
    assert [step][1..] == [];
    assert Run(s, [step]) == Apply(s, step);
    RunJoins(s, [step], CleanUp(w, k));
    if s.origins[k].Edit? || s.origins[k].status in {Pending, Running, Paused, Failed} {
      assert !Referenced(Apply(s, step), k);
      KeyIsCleanedUp(Apply(s, step), w, k);
    }
  }
}
