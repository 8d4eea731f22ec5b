/**
 Stored objects and the rows that point to them. Deleting an object takes two separate steps: a query finds
 its key unreferenced, and later the object is removed. In between every other transaction may run.
 */
module BlobReferences {
  import opened Options
  import opened TransferStates
  import opened FileTrees

  type NodeId = nat
  type VersionId = nat
  type WorkerId = nat

  datatype Version = Version(nodeId: NodeId, key: ObjectKey)

  /**
   Whoever drew a key is the first to put it into a row. An upload session holds its key from its creation on;
   a content edit holds one while it runs. `target` is the content that an overwriting session found.
   */
  datatype Origin =
    | Upload(status: Status, finalized: bool, written: bool, target: Option<ObjectKey>)
    | Edit(saved: bool, givenUp: bool, written: bool)

  /** `candidates` are still to be looked up; `unreferenced` were looked up and are going to be removed. */
  datatype Cleanup = Cleanup(candidates: set<ObjectKey>, unreferenced: set<ObjectKey>)

  datatype State = State(
    nodes: map<NodeId, Option<ObjectKey>>,
    versions: map<VersionId, Version>,
    origins: map<ObjectKey, Origin>,
    stored: set<ObjectKey>,
    seen: set<ObjectKey>,
    cleanups: map<WorkerId, Cleanup>)

  predicate Referenced(s: State, k: ObjectKey) {
    || (exists n :: n in s.nodes && s.nodes[n] == Some(k))
    || (exists v :: v in s.versions && s.versions[v].key == k)
  }

  function CleanupOf(s: State, w: WorkerId): Cleanup {
    if w in s.cleanups then s.cleanups[w] else Cleanup({}, {})
  }

  function Nominate(s: State, w: WorkerId, keys: set<ObjectKey>): State {
    var c := CleanupOf(s, w);
    s.(cleanups := s.cleanups[w := c.(candidates := c.candidates + keys)])
  }

  function KeySet(k: Option<ObjectKey>): set<ObjectKey> {
    if k.Some? then {k.value} else {}
  }

  /** The upload may put its key into a row. */
  predicate CanWrite(s: State, k: ObjectKey) {
    k in s.origins && s.origins[k].Upload? && s.origins[k].status == Running && s.origins[k].finalized && !s.origins[k].written
  }

  predicate CanReplace(s: State, k: ObjectKey) {
    k in s.origins && s.origins[k].Edit? && s.origins[k].saved && !s.origins[k].givenUp && !s.origins[k].written
  }

  predicate IsUpload(s: State, k: ObjectKey) {
    k in s.origins && s.origins[k].Upload?
  }

  predicate HasContent(s: State, n: NodeId) {
    n in s.nodes && s.nodes[n].Some?
  }

  datatype Step =
    // a folder row has no content
    | AddFolder(n: NodeId)
    // uploads
    | OpenUpload(k: ObjectKey, target: Option<NodeId>)
    | ChangeStatus(k: ObjectKey, to: Status)
    | StoreObject(k: ObjectKey)
    | SeeObject(k: ObjectKey)
    | MarkFinalized(k: ObjectKey)
    | UploadNewNode(k: ObjectKey, n: NodeId)
    | UploadVersion(k: ObjectKey, n: NodeId, v: VersionId)
    | UploadOverwrite(k: ObjectKey, n: NodeId, w: WorkerId)
    | RepeatOverwriteCleanup(k: ObjectKey, w: WorkerId)
    | CancelUpload(k: ObjectKey, w: WorkerId)
    // content edits
    | OpenEdit(k: ObjectKey)
    | SaveEdit(k: ObjectKey)
    | ReplaceContent(k: ObjectKey, n: NodeId, v: VersionId)
    | GiveUpEdit(k: ObjectKey, w: WorkerId)
    // rows that take a key over from another row
    | CopyNode(n: NodeId, copy: NodeId)
    | RestoreVersion(n: NodeId, v: VersionId, archived: VersionId)
    // rows that go
    | PruneVersion(v: VersionId, w: WorkerId)
    | DeleteTree(ids: set<NodeId>, w: WorkerId)
    // the clean-up
    | LookUp(w: WorkerId, batch: set<ObjectKey>)
    | RemoveObject(w: WorkerId, k: ObjectKey)

  /** What a row keeps in a version before its content changes. */
  function Archive(s: State, n: NodeId, v: VersionId): State
    requires HasContent(s, n)
  {
    s.(versions := s.versions[v := Version(n, s.nodes[n].value)])
  }

  function WithOrigin(s: State, k: ObjectKey, o: Origin): State {
    s.(origins := s.origins[k := o])
  }

  function SetContent(s: State, n: NodeId, k: ObjectKey): State {
    s.(nodes := s.nodes[n := Some(k)])
  }

  function Written(s: State, k: ObjectKey): State
    requires k in s.origins
  {
    WithOrigin(s, k, s.origins[k].(written := true))
  }

  function KeysOfTree(s: State, ids: set<NodeId>): set<ObjectKey> {
    (set n | n in ids && n in s.nodes && s.nodes[n].Some? :: s.nodes[n].value)
    + (set v | v in s.versions && s.versions[v].nodeId in ids :: s.versions[v].key)
  }

  /** A step whose guard fails leaves everything as it is. */
  function Apply(s: State, step: Step): State {
    match step
    case AddFolder(n) =>
      if n in s.nodes then s else s.(nodes := s.nodes[n := None])
    case OpenUpload(k, target) =>
      if k in s.origins then s
      else WithOrigin(s, k, Upload(Running, false, false, if target.Some? && target.value in s.nodes then s.nodes[target.value] else None))
    case ChangeStatus(k, to) =>
      if IsUpload(s, k) && CanTransition(s.origins[k].status, to) then WithOrigin(s, k, s.origins[k].(status := to)) else s
    case StoreObject(k) =>
      if IsUpload(s, k) then s.(stored := s.stored + {k}) else s
    case SeeObject(k) =>
      if k in s.stored then s.(seen := s.seen + {k}) else s
    case MarkFinalized(k) =>
      if IsUpload(s, k) && s.origins[k].status == Running && k in s.seen then WithOrigin(s, k, s.origins[k].(finalized := true)) else s
    case UploadNewNode(k, n) =>
      if CanWrite(s, k) && n !in s.nodes then Written(SetContent(s, n, k), k) else s
    case UploadVersion(k, n, v) =>
      if CanWrite(s, k) && HasContent(s, n) && v !in s.versions then Written(SetContent(Archive(s, n, v), n, k), k) else s
    case UploadOverwrite(k, n, w) =>
      if CanWrite(s, k) && HasContent(s, n) && s.origins[k].target == s.nodes[n]
      then Nominate(Written(SetContent(s, n, k), k), w, KeySet(s.nodes[n])) else s
    case RepeatOverwriteCleanup(k, w) =>
      if IsUpload(s, k) && s.origins[k].written then Nominate(s, w, KeySet(s.origins[k].target)) else s
    case CancelUpload(k, w) =>
      if IsUpload(s, k) && CanTransition(s.origins[k].status, Canceled)
      then Nominate(WithOrigin(s, k, s.origins[k].(status := Canceled)), w, {k}) else s
    case OpenEdit(k) =>
      if k in s.origins then s else WithOrigin(s, k, Edit(false, false, false))
    case SaveEdit(k) =>
      if k in s.origins && s.origins[k].Edit? && !s.origins[k].givenUp
      then WithOrigin(s, k, s.origins[k].(saved := true)).(stored := s.stored + {k}) else s
    case ReplaceContent(k, n, v) =>
      if CanReplace(s, k) && HasContent(s, n) && v !in s.versions then Written(SetContent(Archive(s, n, v), n, k), k) else s
    case GiveUpEdit(k, w) =>
      if k in s.origins && s.origins[k].Edit? then Nominate(WithOrigin(s, k, s.origins[k].(givenUp := true)), w, {k}) else s
    case CopyNode(n, copy) =>
      if n in s.nodes && copy !in s.nodes then s.(nodes := s.nodes[copy := s.nodes[n]]) else s
    case RestoreVersion(n, v, archived) =>
      if HasContent(s, n) && v in s.versions && s.versions[v].nodeId == n && archived !in s.versions
      then SetContent(Archive(s, n, archived), n, s.versions[v].key) else s
    case PruneVersion(v, w) =>
      if v in s.versions then Nominate(s.(versions := s.versions - {v}), w, {s.versions[v].key}) else s
    case DeleteTree(ids, w) =>
      Nominate(s.(nodes := s.nodes - ids, versions := map v | v in s.versions && s.versions[v].nodeId !in ids :: s.versions[v]),
               w, KeysOfTree(s, ids))
    case LookUp(w, batch) =>
      var c := CleanupOf(s, w);
      var found := set k | k in batch && k in c.candidates && !Referenced(s, k);
      s.(cleanups := s.cleanups[w := Cleanup(c.candidates - batch, c.unreferenced + found)])
    case RemoveObject(w, k) =>
      if k in CleanupOf(s, w).unreferenced then s.(stored := s.stored - {k}) else s
  }

  function Run(s: State, steps: seq<Step>): State
    decreases |steps|
  {
    if steps == [] then s else Run(Apply(s, steps[0]), steps[1..])
  }

  predicate Initial(s: State) {
    s == State(map[], map[], map[], {}, {}, map[])
  }

  // ---------- what every run keeps ----------

  /** The key will not be put into a row by whoever drew it, never again. */
  predicate Spent(o: Origin) {
    o.written || (if o.Upload? then o.status == Canceled else o.givenUp)
  }

  /** What holds of a key that a row points to. */
  predicate KeyOk(s: State, k: ObjectKey) {
    && k in s.origins && s.origins[k].written && k in s.stored
    && forall w :: w in s.cleanups ==> k !in s.cleanups[w].unreferenced
  }

  predicate RowsOk(s: State) {
    && (forall n :: n in s.nodes && s.nodes[n].Some? ==> KeyOk(s, s.nodes[n].value))
    && (forall v :: v in s.versions ==> KeyOk(s, s.versions[v].key))
  }

  predicate OriginOk(s: State, k: ObjectKey)
    requires k in s.origins
  {
    match s.origins[k]
    case Upload(_, finalized, _, target) =>
      && (finalized ==> k in s.seen)
      && (k in s.seen && !Spent(s.origins[k]) ==> k in s.stored)
      && (target.Some? ==> target.value in s.origins && s.origins[target.value].written)
    case Edit(saved, _, _) => saved && !Spent(s.origins[k]) ==> k in s.stored
  }

  predicate AllSpent(s: State, keys: set<ObjectKey>) {
    forall k :: k in keys ==> k in s.origins && Spent(s.origins[k])
  }

  predicate Inv(s: State) {
    && RowsOk(s)
    && (forall k :: k in s.origins ==> OriginOk(s, k))
    && (forall w :: w in s.cleanups ==> AllSpent(s, s.cleanups[w].candidates) && AllSpent(s, s.cleanups[w].unreferenced))
    && s.stored <= s.origins.Keys && s.seen <= s.origins.Keys
  }

  lemma NominateKeepsInv(s: State, w: WorkerId, keys: set<ObjectKey>)
    requires Inv(s) && AllSpent(s, keys)
    ensures Inv(Nominate(s, w, keys))
  {
    var after := Nominate(s, w, keys);
    forall k | KeyOk(s, k) ensures KeyOk(after, k) {
    }
    forall k | k in s.origins ensures OriginOk(after, k) {
      assert OriginOk(s, k);
    }
  }

  /** Rows and clean-ups stand still; origins, stored and seen objects only grow. */
  predicate OnlyOriginsGrow(s: State, after: State) {
    && after.nodes == s.nodes && after.versions == s.versions && after.cleanups == s.cleanups
    && s.stored <= after.stored <= after.origins.Keys && after.seen <= after.origins.Keys
    && forall k :: k in s.origins ==>
         k in after.origins && (s.origins[k].written ==> after.origins[k].written)
         && (Spent(s.origins[k]) ==> Spent(after.origins[k]))
  }

  lemma GrowthKeepsInv(s: State, after: State)
    requires Inv(s) && OnlyOriginsGrow(s, after)
    requires forall k :: k in after.origins ==> OriginOk(after, k)
    ensures Inv(after)
  {
    forall k | KeyOk(s, k) ensures KeyOk(after, k) {
    }
  }

  lemma OpeningKeepsInv(s: State, step: Step)
    requires Inv(s) && (step.OpenUpload? || step.OpenEdit?)
    ensures Inv(Apply(s, step))
  {
    var after := Apply(s, step);
    if step.k !in s.origins {
      if step.OpenUpload? && step.target.Some? && HasContent(s, step.target.value) {
        assert KeyOk(s, s.nodes[step.target.value].value);
      }
      forall k | k in after.origins ensures OriginOk(after, k) {
        assert k in s.origins ==> OriginOk(s, k);
      }
      GrowthKeepsInv(s, after);
    }
  }

  lemma StoreObjectKeepsInv(s: State, k: ObjectKey)
    requires Inv(s)
    ensures Inv(Apply(s, StoreObject(k)))
  {
    var after := Apply(s, StoreObject(k));
    forall j | j in s.origins ensures OriginOk(after, j) {
      assert OriginOk(s, j);
    }
    GrowthKeepsInv(s, after);
  }

  lemma SeeObjectKeepsInv(s: State, k: ObjectKey)
    requires Inv(s)
    ensures Inv(Apply(s, SeeObject(k)))
  {
    var after := Apply(s, SeeObject(k));
    forall j | j in s.origins ensures OriginOk(after, j) {
      assert OriginOk(s, j);
    }
    GrowthKeepsInv(s, after);
  }

  lemma SaveEditKeepsInv(s: State, k: ObjectKey)
    requires Inv(s)
    ensures Inv(Apply(s, SaveEdit(k)))
  {
    var after := Apply(s, SaveEdit(k));
    if after != s {
      forall j | j in after.origins ensures OriginOk(after, j) {
        assert OriginOk(s, j);
      }
      GrowthKeepsInv(s, after);
    }
  }

  lemma SessionStepKeepsInv(s: State, step: Step)
    requires Inv(s) && (step.ChangeStatus? || step.MarkFinalized?)
    ensures Inv(Apply(s, step))
  {
    var after := Apply(s, step);
    if after != s {
      forall k | k in after.origins ensures OriginOk(after, k) {
        assert OriginOk(s, k);
      }
      GrowthKeepsInv(s, after);
    }
  }

  function Ended(o: Origin): Origin {
    if o.Upload? then o.(status := Canceled) else o.(givenUp := true)
  }

  lemma EndingKeepsInv(s: State, k: ObjectKey)
    requires Inv(s) && k in s.origins
    ensures Inv(WithOrigin(s, k, Ended(s.origins[k])))
  {
    var after := WithOrigin(s, k, Ended(s.origins[k]));
    forall j | j in after.origins ensures OriginOk(after, j) {
      assert OriginOk(s, j);
    }
    GrowthKeepsInv(s, after);
  }

  /** The key that a finished upload or a saved edit puts into a row for the first time. */
  predicate FreshKey(s: State, k: ObjectKey) {
    CanWrite(s, k) || CanReplace(s, k)
  }

  lemma FreshKeyIsStored(s: State, k: ObjectKey)
    requires Inv(s) && FreshKey(s, k)
    ensures KeyOk(Written(s, k), k)
  {
    assert OriginOk(s, k);
  }

  lemma WrittenKeepsInv(s: State, k: ObjectKey)
    requires Inv(s) && FreshKey(s, k)
    ensures Inv(Written(s, k)) && KeyOk(Written(s, k), k)
  {
    FreshKeyIsStored(s, k);
    var after := Written(s, k);
    forall j | j in after.origins ensures OriginOk(after, j) {
      assert OriginOk(s, j);
    }
    GrowthKeepsInv(s, after);
  }

  lemma SetContentKeepsInv(s: State, n: NodeId, k: ObjectKey)
    requires Inv(s) && KeyOk(s, k)
    ensures Inv(SetContent(s, n, k))
  {
    var after := SetContent(s, n, k);
    forall j | KeyOk(s, j) ensures KeyOk(after, j) {
    }
    forall j | j in s.origins ensures OriginOk(after, j) {
      assert OriginOk(s, j);
    }
  }

  lemma ArchiveKeepsInv(s: State, n: NodeId, v: VersionId)
    requires Inv(s) && HasContent(s, n)
    ensures Inv(Archive(s, n, v))
  {
    var after := Archive(s, n, v);
    forall j | KeyOk(s, j) ensures KeyOk(after, j) {
    }
    forall j | j in s.origins ensures OriginOk(after, j) {
      assert OriginOk(s, j);
    }
  }

  lemma UploadWriteKeepsInv(s: State, step: Step)
    requires Inv(s) && (step.UploadNewNode? || step.UploadVersion? || step.ReplaceContent?)
    ensures Inv(Apply(s, step))
  {
    var k, n := step.k, step.n;
    if Apply(s, step) != s {
      if step.UploadNewNode? {
        WrittenKeepsInv(s, k);
        SetContentKeepsInv(Written(s, k), n, k);
        assert Apply(s, step) == SetContent(Written(s, k), n, k);
      } else {
        var archived := Archive(s, n, step.v);
        ArchiveKeepsInv(s, n, step.v);
        WrittenKeepsInv(archived, k);
        SetContentKeepsInv(Written(archived, k), n, k);
        assert Apply(s, step) == SetContent(Written(archived, k), n, k);
      }
    }
  }

  lemma OverwriteKeepsInv(s: State, k: ObjectKey, n: NodeId, w: WorkerId)
    requires Inv(s)
    ensures Inv(Apply(s, UploadOverwrite(k, n, w)))
  {
    if CanWrite(s, k) && HasContent(s, n) && s.origins[k].target == s.nodes[n] {
      var displaced := s.nodes[n].value;
      assert KeyOk(s, displaced);
      WrittenKeepsInv(s, k);
      SetContentKeepsInv(Written(s, k), n, k);
      var written := Written(SetContent(s, n, k), k);
      assert written == SetContent(Written(s, k), n, k);
      NominateKeepsInv(written, w, {displaced});
    }
  }

  lemma CopyKeepsInv(s: State, step: Step)
    requires Inv(s) && (step.CopyNode? || step.AddFolder? || step.RestoreVersion?)
    ensures Inv(Apply(s, step))
  {
    var after := Apply(s, step);
    forall j | KeyOk(s, j) ensures KeyOk(after, j) {
    }
    forall j | j in s.origins ensures OriginOk(after, j) {
      assert OriginOk(s, j);
    }
  }

  lemma RemovalKeepsInv(s: State, step: Step)
    requires Inv(s) && (step.PruneVersion? || step.DeleteTree?)
    ensures Inv(Apply(s, step))
  {
    if step.DeleteTree? {
      var keys := KeysOfTree(s, step.ids);
      var after := Apply(s, step);
      var less := s.(nodes := after.nodes, versions := after.versions);
      FewerRowsKeepInv(s, less);
      forall k | k in keys ensures k in s.origins && Spent(s.origins[k]) {
        assert KeyOk(s, k);
      }
      NominateKeepsInv(less, step.w, keys);
    } else if step.v in s.versions {
      var less := s.(versions := s.versions - {step.v});
      FewerRowsKeepInv(s, less);
      assert KeyOk(s, s.versions[step.v].key);
      NominateKeepsInv(less, step.w, {s.versions[step.v].key});
    }
  }

  lemma FewerRowsKeepInv(s: State, less: State)
    requires Inv(s) && less == s.(nodes := less.nodes, versions := less.versions)
    requires forall n :: n in less.nodes ==> n in s.nodes && less.nodes[n] == s.nodes[n]
    requires forall v :: v in less.versions ==> v in s.versions && less.versions[v] == s.versions[v]
    ensures Inv(less)
  {
    forall j | KeyOk(s, j) ensures KeyOk(less, j) {
    }
    forall j | j in s.origins ensures OriginOk(less, j) {
      assert OriginOk(s, j);
    }
  }

  lemma LookUpKeepsInv(s: State, w: WorkerId, batch: set<ObjectKey>)
    requires Inv(s)
    ensures Inv(Apply(s, LookUp(w, batch)))
  {
    var after := Apply(s, LookUp(w, batch));
    forall k | KeyOk(s, k) && Referenced(s, k) ensures KeyOk(after, k) {
    }
    forall n | n in s.nodes && s.nodes[n].Some? ensures KeyOk(after, s.nodes[n].value) {
      assert Referenced(s, s.nodes[n].value);
    }
    forall v | v in s.versions ensures KeyOk(after, s.versions[v].key) {
      assert Referenced(s, s.versions[v].key);
    }
    forall j | j in s.origins ensures OriginOk(after, j) {
      assert OriginOk(s, j);
    }
  }

  lemma RemoveObjectKeepsInv(s: State, w: WorkerId, k: ObjectKey)
    requires Inv(s)
    ensures Inv(Apply(s, RemoveObject(w, k)))
  {
    var after := Apply(s, RemoveObject(w, k));
    if k in CleanupOf(s, w).unreferenced {
      assert w in s.cleanups;
      forall j | KeyOk(s, j) ensures KeyOk(after, j) {
      }
      forall j | j in s.origins ensures OriginOk(after, j) {
        assert OriginOk(s, j);
      }
    }
  }

  lemma StepKeepsInv(s: State, step: Step)
    requires Inv(s)
    ensures Inv(Apply(s, step))
  {
    match step
    case UploadOverwrite(k, n, w) => OverwriteKeepsInv(s, k, n, w);
    case RepeatOverwriteCleanup(k, w) =>
      if IsUpload(s, k) && s.origins[k].written {
        assert OriginOk(s, k);
        NominateKeepsInv(s, w, KeySet(s.origins[k].target));
      }
    case CancelUpload(k, w) =>
      if IsUpload(s, k) && CanTransition(s.origins[k].status, Canceled) {
        EndingKeepsInv(s, k);
        NominateKeepsInv(WithOrigin(s, k, Ended(s.origins[k])), w, {k});
      }
    case GiveUpEdit(k, w) =>
      if k in s.origins && s.origins[k].Edit? {
        EndingKeepsInv(s, k);
        NominateKeepsInv(WithOrigin(s, k, Ended(s.origins[k])), w, {k});
      }
    case LookUp(w, batch) => LookUpKeepsInv(s, w, batch);
    case RemoveObject(w, k) => RemoveObjectKeepsInv(s, w, k);
    case PruneVersion(_, _) => RemovalKeepsInv(s, step);
    case DeleteTree(_, _) => RemovalKeepsInv(s, step);
    case UploadNewNode(_, _) => UploadWriteKeepsInv(s, step);
    case UploadVersion(_, _, _) => UploadWriteKeepsInv(s, step);
    case ReplaceContent(_, _, _) => UploadWriteKeepsInv(s, step);
    case CopyNode(_, _) => CopyKeepsInv(s, step);
    case AddFolder(_) => CopyKeepsInv(s, step);
    case RestoreVersion(_, _, _) => CopyKeepsInv(s, step);
    case OpenUpload(_, _) => OpeningKeepsInv(s, step);
    case OpenEdit(_) => OpeningKeepsInv(s, step);
    case StoreObject(k) => StoreObjectKeepsInv(s, k);
    case SeeObject(k) => SeeObjectKeepsInv(s, k);
    case SaveEdit(k) => SaveEditKeepsInv(s, k);
    case ChangeStatus(_, _) => SessionStepKeepsInv(s, step);
    case MarkFinalized(_) => SessionStepKeepsInv(s, step);
  }

  lemma {:induction false} RunKeepsInv(s: State, steps: seq<Step>)
    requires Inv(s)
    ensures Inv(Run(s, steps))
    decreases |steps|
  {
    if steps != [] {
      StepKeepsInv(s, steps[0]);
      RunKeepsInv(Apply(s, steps[0]), steps[1..]);
    }
  }

  // ---------- the results ----------

  lemma ReferencedIsOk(s: State, k: ObjectKey)
    requires RowsOk(s) && Referenced(s, k)
    ensures KeyOk(s, k)
  {
  }

  /** Whatever a row points to is stored, in every run. */
  lemma ReferencedIsStored(s: State, steps: seq<Step>, k: ObjectKey)
    requires Initial(s) && Referenced(Run(s, steps), k)
    ensures k in Run(s, steps).stored
  {
    RunKeepsInv(s, steps);
    ReferencedIsOk(Run(s, steps), k);
  }

  lemma FindingStays(s: State, step: Step, w: WorkerId, k: ObjectKey)
    requires k in CleanupOf(s, w).unreferenced
    ensures k in CleanupOf(Apply(s, step), w).unreferenced
  {
    assert step.LookUp? || Apply(s, step).cleanups == s.cleanups || w !in s.cleanups
      || Apply(s, step).cleanups[w].unreferenced == s.cleanups[w].unreferenced;
  }

  lemma {:induction false} FindingsOnlyGrow(s: State, steps: seq<Step>, w: WorkerId, k: ObjectKey)
    requires k in CleanupOf(s, w).unreferenced
    ensures k in CleanupOf(Run(s, steps), w).unreferenced
    decreases |steps|
  {
    if steps != [] {
      FindingStays(s, steps[0], w, k);
      FindingsOnlyGrow(Apply(s, steps[0]), steps[1..], w, k);
    }
  }

  /** A key that a look-up has found unreferenced is unreferenced for good, whatever runs before the removal. */
  lemma UnreferencedStaysUnreferenced(s: State, steps: seq<Step>, w: WorkerId, k: ObjectKey, more: seq<Step>)
    requires Initial(s) && k in CleanupOf(Run(s, steps), w).unreferenced
    ensures !Referenced(Run(Run(s, steps), more), k)
  {
    var mid := Run(s, steps);
    RunKeepsInv(s, steps);
    RunKeepsInv(mid, more);
    FindingsOnlyGrow(mid, more, w, k);
    var end := Run(mid, more);
    if Referenced(end, k) {
      ReferencedIsOk(end, k);
    }
  }

  // ---------- the look-up and the retention rule ----------

  /** The candidates without blanks and repetitions, in their order. */
  function Distinct(keys: seq<Option<ObjectKey>>): (r: seq<ObjectKey>)
    ensures forall k :: k in r <==> Some(k) in keys
    ensures forall i, j :: 0 <= i < j < |r| ==> r[i] != r[j]
  {
    if keys == [] then []
    else
      var before := Distinct(keys[..|keys| - 1]);
      var last := keys[|keys| - 1];
      assert keys == keys[..|keys| - 1] + [last];
      if last.None? || last.value in before then before else before + [last.value]
  }

  /**
   Looked up batch after batch; `referenced` says what the rows point to while a batch is looked up. Each key
   is judged once, by the rows at the time of its own batch.
   */
  method FilterUnreferencedObjectKeys(objectKeys: seq<Option<ObjectKey>>, referenced: nat -> set<ObjectKey>, batchSize: nat)
    returns (unreferenced: seq<ObjectKey>)
    requires batchSize > 0
    ensures forall k :: k in unreferenced ==> Some(k) in objectKeys
    ensures var asked := Distinct(objectKeys);
      forall p :: 0 <= p < |asked| ==> (asked[p] in unreferenced <==> asked[p] !in referenced(p / batchSize))
    ensures forall i, j :: 0 <= i < j < |unreferenced| ==> unreferenced[i] != unreferenced[j]
  {
    var candidates := Distinct(objectKeys);
    var found := ReferencedAmong(candidates, referenced, batchSize);
    unreferenced := NotIn(candidates, found);
    FoundIsFound(candidates, found, referenced, batchSize);
  }

  method ReferencedAmong(keys: seq<ObjectKey>, referenced: nat -> set<ObjectKey>, batchSize: nat) returns (found: set<ObjectKey>)
    requires batchSize > 0 && forall i, j :: 0 <= i < j < |keys| ==> keys[i] != keys[j]
    ensures FoundUpTo(keys, found, referenced, batchSize, |keys|)
  {
    found := {};
    var offset, number := 0, 0;
    while offset < |keys|
      invariant offset == number * batchSize
      invariant FoundUpTo(keys, found, referenced, batchSize, if offset < |keys| then offset else |keys|)
      decreases |keys| - offset
    {
      var end := if offset + batchSize < |keys| then offset + batchSize else |keys|;
      var answer := set k | k in keys[offset..end] && k in referenced(number);
      BatchFound(keys, found, referenced, batchSize, number, end);
      found := found + answer;
      offset := offset + batchSize;
      number := number + 1;
    }
  }

  lemma FoundIsFound(keys: seq<ObjectKey>, found: set<ObjectKey>, referenced: nat -> set<ObjectKey>, batchSize: nat)
    requires batchSize > 0 && FoundUpTo(keys, found, referenced, batchSize, |keys|)
    ensures forall p :: 0 <= p < |keys| ==> (keys[p] in found <==> keys[p] in referenced(p / batchSize))
  {
  }

  method NotIn(keys: seq<ObjectKey>, found: set<ObjectKey>) returns (rest: seq<ObjectKey>)
    requires forall i, j :: 0 <= i < j < |keys| ==> keys[i] != keys[j]
    ensures forall k :: k in rest <==> k in keys && k !in found
    ensures forall i, j :: 0 <= i < j < |rest| ==> rest[i] != rest[j]
  {
    rest := [];
    for i := 0 to |keys|
      invariant forall k :: k in rest <==> k in keys[..i] && k !in found
      invariant forall j, l :: 0 <= j < l < |rest| ==> rest[j] != rest[l]
    {
      assert keys[i] !in keys[..i];
      if keys[i] !in found {
        rest := rest + [keys[i]];
      }
    }
    assert keys[..|keys|] == keys;
  }

  /** The first `n` keys have been looked up, each in its batch. */
  predicate FoundUpTo(keys: seq<ObjectKey>, found: set<ObjectKey>, referenced: nat -> set<ObjectKey>, batchSize: nat, n: nat)
    requires batchSize > 0 && n <= |keys|
  {
    && (forall p :: 0 <= p < n ==> (keys[p] in found <==> keys[p] in referenced(p / batchSize)))
    && (forall k :: k in found ==> k in keys[..n])
  }

  lemma BatchFound(keys: seq<ObjectKey>, found: set<ObjectKey>, referenced: nat -> set<ObjectKey>, batchSize: nat, number: nat, end: nat)
    requires batchSize > 0 && number * batchSize < end <= |keys| && end <= number * batchSize + batchSize
    requires forall i, j :: 0 <= i < j < |keys| ==> keys[i] != keys[j]
    requires FoundUpTo(keys, found, referenced, batchSize, number * batchSize)
    ensures FoundUpTo(keys, found + (set k | k in keys[number * batchSize..end] && k in referenced(number)), referenced, batchSize, end)
    ensures (number + 1) * batchSize == number * batchSize + batchSize
  {
    var offset := number * batchSize;
    var answer := set k | k in keys[offset..end] && k in referenced(number);
    forall p | 0 <= p < end ensures keys[p] in found + answer <==> keys[p] in referenced(p / batchSize) {
      if p >= offset {
        InBatch(p, number, batchSize);
        assert keys[p] in keys[offset..end] && keys[p] !in keys[..offset];
      } else {
        assert keys[p] !in keys[offset..end];
      }
    }
    assert keys[..end] == keys[..offset] + keys[offset..end];
  }

  lemma InBatch(p: nat, number: nat, batchSize: nat)
    requires batchSize > 0 && number * batchSize <= p < number * batchSize + batchSize
    ensures p / batchSize == number
  {
    var q := p / batchSize;
    assert p == q * batchSize + p % batchSize && (q + 1) * batchSize == q * batchSize + batchSize;
    assert (number + 1) * batchSize == number * batchSize + batchSize;
    if q < number {
      Times(batchSize, q + 1, number);
    } else if q > number {
      Times(batchSize, number + 1, q);
    }
  }

  lemma Times(x: nat, a: nat, b: nat)
    requires a <= b
    ensures x * a <= x * b
  {
  }

  datatype StoredVersion = StoredVersion(id: VersionId, createdAt: Time, hasAnomaly: bool)

  /** How many of the first `i` versions are young. Versions come newest number first. */
  function YoungBefore(versions: seq<StoredVersion>, cutoff: Time, i: nat): nat
    requires i <= |versions|
  {
    if i == 0 then 0 else YoungBefore(versions, cutoff, i - 1) + if versions[i - 1].createdAt >= cutoff then 1 else 0
  }

  function Young(versions: seq<StoredVersion>, cutoff: Time): seq<StoredVersion> {
    if versions == [] then []
    else
      var n := |versions| - 1;
      Young(versions[..n], cutoff) + if versions[n].createdAt >= cutoff then [versions[n]] else []
  }

  function KeptIds(versions: seq<StoredVersion>, cutoff: Time, count: nat): set<VersionId> {
    var young := Young(versions, cutoff);
    var kept := if |young| <= count then young else young[..count];
    set v | v in kept :: v.id
  }

  function VersionsToDelete(versions: seq<StoredVersion>, cutoff: Time, count: nat): set<VersionId> {
    set v | v in versions && v.id !in KeptIds(versions, cutoff, count) && !v.hasAnomaly :: v.id
  }

  lemma {:induction false} YoungStands(versions: seq<StoredVersion>, cutoff: Time, i: nat)
    requires i < |versions| && versions[i].createdAt >= cutoff
    ensures YoungBefore(versions, cutoff, i) < |Young(versions, cutoff)|
    ensures Young(versions, cutoff)[YoungBefore(versions, cutoff, i)] == versions[i]
    decreases |versions|
  {
    var n := |versions| - 1;
    if i < n {
      YoungBeforePrefix(versions, cutoff, n, i);
      YoungStands(versions[..n], cutoff, i);
    } else {
      YoungBeforePrefix(versions, cutoff, n, n);
      YoungCounts(versions[..n], cutoff);
    }
  }

  lemma {:induction false} YoungBeforePrefix(versions: seq<StoredVersion>, cutoff: Time, n: nat, i: nat)
    requires i <= n <= |versions|
    ensures YoungBefore(versions[..n], cutoff, i) == YoungBefore(versions, cutoff, i)
    decreases i
  {
    if i > 0 {
      YoungBeforePrefix(versions, cutoff, n, i - 1);
    }
  }

  lemma {:induction false} YoungCounts(versions: seq<StoredVersion>, cutoff: Time)
    ensures |Young(versions, cutoff)| == YoungBefore(versions, cutoff, |versions|)
    decreases |versions|
  {
    if versions != [] {
      var n := |versions| - 1;
      YoungCounts(versions[..n], cutoff);
      YoungBeforePrefix(versions, cutoff, n, n);
    }
  }

  lemma {:induction false} YoungComesFrom(versions: seq<StoredVersion>, cutoff: Time, j: nat) returns (i: nat)
    requires j < |Young(versions, cutoff)|
    ensures i < |versions| && versions[i] == Young(versions, cutoff)[j]
    ensures versions[i].createdAt >= cutoff && YoungBefore(versions, cutoff, i) == j
    decreases |versions|
  {
    var n := |versions| - 1;
    if j < |Young(versions[..n], cutoff)| {
      i := YoungComesFrom(versions[..n], cutoff, j);
      YoungBeforePrefix(versions, cutoff, n, i);
    } else {
      i := n;
      YoungCounts(versions[..n], cutoff);
      YoungBeforePrefix(versions, cutoff, n, n);
    }
  }

  /**
   A version is kept exactly when it is young and fewer than `count` young versions have a higher
   number; of the others, those with an open integrity finding stay as well.
   */
  lemma PruningRule(versions: seq<StoredVersion>, cutoff: Time, count: nat, i: nat)
    requires i < |versions| && forall j, k :: 0 <= j < k < |versions| ==> versions[j].id != versions[k].id
    ensures versions[i].id in VersionsToDelete(versions, cutoff, count)
      <==> !versions[i].hasAnomaly && !(versions[i].createdAt >= cutoff && YoungBefore(versions, cutoff, i) < count)
  {
    var young := Young(versions, cutoff);
    var kept := if |young| <= count then young else young[..count];
    if versions[i].createdAt >= cutoff && YoungBefore(versions, cutoff, i) < count {
      YoungStands(versions, cutoff, i);
      assert kept[YoungBefore(versions, cutoff, i)] in kept;
    } else if versions[i].id in KeptIds(versions, cutoff, count) {
      var j :| 0 <= j < |kept| && kept[j].id == versions[i].id;
      var origin := YoungComesFrom(versions, cutoff, j);
      assert false;
    }
    assert versions[i] in versions;
  }
}
